/** The state of the interactive page-cutting step: the areas the user has
    selected, the pages whose collision check is switched off, and the list
    of crops accepted so far. The selection callback, the collision toggle,
    the single-crop check and the crop plan over all pages update that state
    in place. */
module CropSession {
  import opened Common
  import opened CropRegions

  /** The selectable areas. A missing entry is `None` (not yet selected);
      exceptions and mobile headers are kept per page. */
  datatype Areas = Areas(
    headerLeft: Option<Rect>, headerRight: Option<Rect>,
    footer: Option<Rect>, leftColumn: Option<Rect>, rightColumn: Option<Rect>,
    exceptions: map<int, Rect>,
    mobileHeader: map<int, Rect>, mobileFooter: Option<Rect>, mobileColumn: Option<Rect>)

  const NoAreas := Areas(None, None, None, None, None, map[], map[], None, None)

  // ---------------------------------------------------------------------------
  // onselect
  // ---------------------------------------------------------------------------

  function Min(a: real, b: real): real { if a <= b then a else b }
  function Max(a: real, b: real): real { if a <= b then b else a }

  /** The rectangle spanned by the press and release points. */
  function Normalise(x1: real, y1: real, x2: real, y2: real): (r: Rect)
    ensures r.left <= r.right && r.top <= r.bottom
    ensures (r.left == x1 && r.right == x2) || (r.left == x2 && r.right == x1)
    ensures (r.top == y1 && r.bottom == y2) || (r.top == y2 && r.bottom == y1)
  {
    Rect(Min(x1, x2), Min(y1, y2), Max(x1, x2), Max(y1, y2))
  }

  /** The area to the right of `sel`, up to the right end of the view. */
  function RightOf(sel: Rect, xmax: real): Rect {
    Rect(sel.right, sel.top, xmax, sel.bottom)
  }

  /** Stores a selection under the area being edited. The header selection is
      its left half and also fixes the right half; the left-column selection
      also fixes the right column and the footer below both. Any other key
      (including none) is a lookup failure that the callback swallows. */
  function SelectArea(a: Areas, key: string, page: int, sel: Rect, xlim: (real, real), ylim: (real, real)): Areas {
    if key == "Excepción" then a.(exceptions := a.exceptions[page := sel])
    else if key == "Encabezado_movil" then a.(mobileHeader := a.mobileHeader[page := sel])
    else if key == "Encabezado" then a.(headerLeft := Some(sel), headerRight := Some(RightOf(sel, xlim.1)))
    else if key == "Columna izquierda" then
      a.(leftColumn := Some(sel), rightColumn := Some(RightOf(sel, xlim.1)),
         footer := Some(Rect(xlim.0, sel.bottom, xlim.1, ylim.0)))
    else if key == "Pie de página" then a.(footer := Some(sel))
    else if key == "Columna derecha" then a.(rightColumn := Some(sel))
    else if key == "Pie_de_pagina_movil" then a.(mobileFooter := Some(sel))
    else if key == "Columna_movil" then a.(mobileColumn := Some(sel))
    else a
  }

  const AreaKeys := ["Excepción", "Encabezado_movil", "Encabezado", "Columna izquierda",
                     "Pie de página", "Columna derecha", "Pie_de_pagina_movil", "Columna_movil"]

  /** `check_if_encabezado_half`: whether both header halves exist, and
      whether `coords` is the left or the right one. */
  function HeaderHalf(a: Areas, coords: Rect): (r: (bool, bool, bool))
    ensures r.0 <==> a.headerLeft.Some? && a.headerRight.Some?
    ensures r.1 <==> r.0 && a.headerLeft == Some(coords)
    ensures r.2 <==> r.0 && a.headerRight == Some(coords)
  {
    if a.headerLeft.Some? && a.headerRight.Some? then
      (true, a.headerLeft.value == coords, a.headerRight.value == coords)
    else (false, false, false)
  }

  /** Selecting the header makes the two halves adjacent: the right half
      starts where the left one ends, at the same height, and reaches the
      right end of the view; the selection is then recognised as the left
      half. */
  lemma HeaderSelectionSplits(a: Areas, page: int, sel: Rect, xlim: (real, real), ylim: (real, real))
    requires sel.left <= sel.right && sel.top <= sel.bottom
    ensures var b := SelectArea(a, "Encabezado", page, sel, xlim, ylim);
      && b.headerLeft == Some(sel)
      && b.headerRight.Some? && b.headerRight.value.left == sel.right && b.headerRight.value.right == xlim.1
      && b.headerRight.value.top == sel.top && b.headerRight.value.bottom == sel.bottom
      && HeaderHalf(b, sel).0 && HeaderHalf(b, sel).1
      && b.(headerLeft := a.headerLeft, headerRight := a.headerRight) == a
  {
  }

  /** Selecting the left column fixes the right column beside it and the
      footer spanning the view below both. */
  lemma ColumnSelectionSplits(a: Areas, page: int, sel: Rect, xlim: (real, real), ylim: (real, real))
    ensures var b := SelectArea(a, "Columna izquierda", page, sel, xlim, ylim);
      && b.leftColumn == Some(sel)
      && b.rightColumn == Some(Rect(sel.right, sel.top, xlim.1, sel.bottom))
      && b.footer == Some(Rect(xlim.0, sel.bottom, xlim.1, ylim.0))
      && b.(leftColumn := a.leftColumn, rightColumn := a.rightColumn, footer := a.footer) == a
  {
  }

  /** A key that names no area leaves every area as it was; selecting the
      same rectangle again changes nothing. */
  lemma SelectUnknownOrRepeated(a: Areas, key: string, page: int, sel: Rect, xlim: (real, real), ylim: (real, real))
    ensures key !in AreaKeys ==> SelectArea(a, key, page, sel, xlim, ylim) == a
    ensures var b := SelectArea(a, key, page, sel, xlim, ylim);
      SelectArea(b, key, page, sel, xlim, ylim) == b
  {
    var b := SelectArea(a, key, page, sel, xlim, ylim);
    if key == "Excepción" {
      assert b.exceptions[page := sel] == b.exceptions;
    } else if key == "Encabezado_movil" {
      assert b.mobileHeader[page := sel] == b.mobileHeader;
    }
  }

  /** `on_click` while the mobile footer is being edited: the footer runs
      from the clicked height down to the mobile column's bottom, across the
      column's width, or across the whole view when no column is set. */
  function ClickFooter(a: Areas, y: real, xlim: (real, real), ylim: (real, real)): Areas {
    var foot := if a.mobileColumn.Some? then Rect(a.mobileColumn.value.left, y, a.mobileColumn.value.right, a.mobileColumn.value.bottom)
                else Rect(xlim.0, y, xlim.1, ylim.0);
    a.(mobileFooter := Some(foot))
  }

  /** With the mobile column set, the clicked footer lies under the column,
      and on a skipped page the plan cuts the column at the clicked height. */
  lemma ClickFooterCutsColumn(a: Areas, y: real, xlim: (real, real), ylim: (real, real), skipped: set<int>, p: int)
    requires a.mobileColumn.Some? && p in skipped
    ensures var b := ClickFooter(a, y, xlim, ylim);
      var col := a.mobileColumn.value;
      && b.mobileFooter == Some(Rect(col.left, y, col.right, col.bottom))
      && b.(mobileFooter := a.mobileFooter) == a
      && MobileFirst(b, skipped, p) == [Request(p, Some(Rect(col.left, col.top, col.right, y)))]
  {
  }

  // ---------------------------------------------------------------------------
  // toggle_omitir_colision
  // ---------------------------------------------------------------------------

  function Toggled(s: set<int>, page: int): (r: set<int>)
    ensures page in r <==> page !in s
    ensures forall q | q != page :: q in r <==> q in s
  {
    if page in s then s - {page} else s + {page}
  }

  /** Toggling the same page twice restores the set of skipped pages. */
  lemma ToggleTwice(s: set<int>, page: int)
    ensures Toggled(Toggled(s, page), page) == s
  {
    if page in s {
      assert (s - {page}) + {page} == s;
    } else {
      assert (s + {page}) - {page} == s;
    }
  }

  // ---------------------------------------------------------------------------
  // crop_and_add_to_pdf, one request
  // ---------------------------------------------------------------------------

  /** A crop request: page number (negative counts from the end) and the
      area, absent when it was never selected. */
  datatype Request = Request(page: int, coords: Option<Rect>)

  /** The accepted crops and whether some perimeter was found crossed. */
  datatype Crops = Crops(data: seq<(int, Rect)>, issue: bool)

  datatype Outcome = Ignore | Flag | Add | Fail

  function RoleOf(a: Areas, rect: Rect): Role {
    Role(a.headerLeft == Some(rect), a.headerRight == Some(rect), a.mobileFooter == Some(rect))
  }

  /** The exception areas the perimeter test honours: the per-page mobile
      headers in mobile mode. */
  function ExceptionsFor(a: Areas, mobile: bool): map<int, Rect> {
    if mobile then a.mobileHeader else a.exceptions
  }

  /** What one request does: nothing for a missing area or a white region,
      a raised error for a page or pixel index out of range, a flagged
      perimeter, or an accepted crop. */
  function Decide(a: Areas, skipped: set<int>, mobile: bool, pages: seq<Raster>, req: Request): Outcome {
    if req.coords.None? then Ignore
    else match NpIndex(|pages|, req.page)
      case None => Fail
      case Some(i) =>
        if RegionWhite(pages[i], req.coords.value, WhiteThreshold) then Ignore
        else match Perimeter(pages[i], req.coords.value, req.page, ExceptionsFor(a, mobile), skipped, RoleOf(a, req.coords.value))
          case None => Fail
          case Some(crossed) => if crossed then Flag else Add
  }

  function Apply(st: Crops, o: Outcome, req: Request): Crops
    requires o != Fail
    requires o == Add ==> req.coords.Some?
  {
    match o
    case Add => st.(data := st.data + [(req.page, req.coords.value)])
    case Flag => st.(issue := true)
    case _ => st
  }

  function Step(a: Areas, skipped: set<int>, mobile: bool, pages: seq<Raster>, st: Crops, req: Request): Option<Crops> {
    var o := Decide(a, skipped, mobile, pages, req);
    if o == Fail then None else Some(Apply(st, o, req))
  }

  /** A crop is accepted exactly when its area is set, its page exists, the
      region is not all white and its perimeter is clean. */
  lemma DecideAdd(a: Areas, skipped: set<int>, mobile: bool, pages: seq<Raster>, req: Request)
    ensures Decide(a, skipped, mobile, pages, req) == Add <==>
      && req.coords.Some?
      && -|pages| <= req.page < |pages|
      && var img := pages[NpIndex(|pages|, req.page).value];
      && !RegionWhite(img, req.coords.value, WhiteThreshold)
      && Perimeter(img, req.coords.value, req.page, ExceptionsFor(a, mobile), skipped, RoleOf(a, req.coords.value)) == Some(false)
  {
  }

  /** Runs requests in order; the first error stops the run. */
  function Run(a: Areas, skipped: set<int>, mobile: bool, pages: seq<Raster>, st: Crops, reqs: seq<Request>): Option<Crops>
    decreases |reqs|
  {
    if |reqs| == 0 then Some(st)
    else match Run(a, skipped, mobile, pages, st, reqs[..|reqs| - 1])
      case None => None
      case Some(s) => Step(a, skipped, mobile, pages, s, reqs[|reqs| - 1])
  }

  lemma RunSnoc(a: Areas, skipped: set<int>, mobile: bool, pages: seq<Raster>, st: Crops, reqs: seq<Request>, r: Request)
    ensures Run(a, skipped, mobile, pages, st, reqs + [r]) ==
      match Run(a, skipped, mobile, pages, st, reqs)
      case None => None
      case Some(s) => Step(a, skipped, mobile, pages, s, r)
  {
    assert (reqs + [r])[..|reqs|] == reqs;
  }

  /** Once a prefix of the requests fails, the whole run fails. */
  lemma {:induction false} RunStops(a: Areas, skipped: set<int>, mobile: bool, pages: seq<Raster>, st: Crops, reqs: seq<Request>, i: nat)
    requires i <= |reqs|
    requires Run(a, skipped, mobile, pages, st, reqs[..i]) == None
    ensures Run(a, skipped, mobile, pages, st, reqs) == None
    decreases |reqs| - i
  {
    if i < |reqs| {
      RunSnoc(a, skipped, mobile, pages, st, reqs[..i], reqs[i]);
      assert reqs[..i + 1] == reqs[..i] + [reqs[i]];
      RunStops(a, skipped, mobile, pages, st, reqs, i + 1);
    } else {
      assert reqs[..i] == reqs;
    }
  }

  /** A step that does not fail appends its crop when the request is
      accepted and nothing otherwise; the flag is only ever raised. */
  lemma StepAppends(a: Areas, skipped: set<int>, mobile: bool, pages: seq<Raster>, st: Crops, r: Request)
    requires Step(a, skipped, mobile, pages, st, r).Some?
    ensures var st' := Step(a, skipped, mobile, pages, st, r).value;
      && (Decide(a, skipped, mobile, pages, r) == Add ==> r.coords.Some? && st'.data == st.data + [(r.page, r.coords.value)])
      && (Decide(a, skipped, mobile, pages, r) != Add ==> st'.data == st.data)
      && (st.issue ==> st'.issue)
  {
  }

  /** Crop `c` is the page and area of an accepted request among `reqs`. */
  ghost predicate FromAccepted(a: Areas, skipped: set<int>, mobile: bool, pages: seq<Raster>, reqs: seq<Request>, c: (int, Rect)) {
    exists j | 0 <= j < |reqs| ::
      && Decide(a, skipped, mobile, pages, reqs[j]) == Add
      && reqs[j].page == c.0 && reqs[j].coords == Some(c.1)
  }

  /** A completed run keeps the crops made before as a prefix and never
      lowers the flag. */
  lemma {:induction false} RunExtends(a: Areas, skipped: set<int>, mobile: bool, pages: seq<Raster>, st: Crops, reqs: seq<Request>)
    requires Run(a, skipped, mobile, pages, st, reqs).Some?
    ensures var st' := Run(a, skipped, mobile, pages, st, reqs).value;
      |st.data| <= |st'.data| && st'.data[..|st.data|] == st.data && (st.issue ==> st'.issue)
    decreases |reqs|
  {
    if |reqs| > 0 {
      var init := reqs[..|reqs| - 1];
      RunExtends(a, skipped, mobile, pages, st, init);
      var mid := Run(a, skipped, mobile, pages, st, init).value;
      StepAppends(a, skipped, mobile, pages, mid, reqs[|reqs| - 1]);
    }
  }

  /** A completed run only appends crops, each one a request of the run
      that was accepted; the perimeter flag is only ever raised. */
  lemma {:induction false} RunAppendsAccepted(a: Areas, skipped: set<int>, mobile: bool, pages: seq<Raster>, st: Crops, reqs: seq<Request>)
    requires Run(a, skipped, mobile, pages, st, reqs).Some?
    ensures var st' := Run(a, skipped, mobile, pages, st, reqs).value;
      && |st.data| <= |st'.data| && st'.data[..|st.data|] == st.data
      && (st.issue ==> st'.issue)
      && forall k | |st.data| <= k < |st'.data| :: FromAccepted(a, skipped, mobile, pages, reqs, st'.data[k])
    decreases |reqs|
  {
    if |reqs| > 0 {
      var init := reqs[..|reqs| - 1];
      var r := reqs[|reqs| - 1];
      RunAppendsAccepted(a, skipped, mobile, pages, st, init);
      RunExtends(a, skipped, mobile, pages, st, reqs);
      var mid := Run(a, skipped, mobile, pages, st, init).value;
      var st' := Run(a, skipped, mobile, pages, st, reqs).value;
      StepAppends(a, skipped, mobile, pages, mid, r);
      forall k | |st.data| <= k < |st'.data|
        ensures FromAccepted(a, skipped, mobile, pages, reqs, st'.data[k])
      {
        if k < |mid.data| {
          assert st'.data[k] == mid.data[k];
          assert FromAccepted(a, skipped, mobile, pages, init, mid.data[k]);
          var j :| 0 <= j < |init| && Decide(a, skipped, mobile, pages, init[j]) == Add
            && init[j].page == mid.data[k].0 && init[j].coords == Some(mid.data[k].1);
          assert reqs[j] == init[j];
        } else {
          assert reqs[|reqs| - 1] == r;
        }
      }
    }
  }

  // ---------------------------------------------------------------------------
  // The crop plan of process_pdf
  // ---------------------------------------------------------------------------

  /** The part of a column above the page's exception area, if any. */
  function Above(p: int, col: Option<Rect>, ex: Rect): seq<Request> {
    if col.Some? && col.value.top < ex.top then [Request(p, Some(Rect(col.value.left, col.value.top, col.value.right, ex.top)))] else []
  }

  /** The part of a column below the page's exception area, if any. */
  function Below(p: int, col: Option<Rect>, ex: Rect): seq<Request> {
    if col.Some? && col.value.bottom > ex.bottom then [Request(p, Some(Rect(col.value.left, ex.bottom, col.value.right, col.value.bottom)))] else []
  }

  /** A page with an exception: both columns above it, the exception itself,
      then both columns below it. */
  function ExceptionPage(a: Areas, p: int, ex: Rect): seq<Request> {
    Above(p, a.leftColumn, ex) + Above(p, a.rightColumn, ex) + [Request(p, Some(ex))]
    + Below(p, a.leftColumn, ex) + Below(p, a.rightColumn, ex)
  }

  function NormalPage(a: Areas, p: int): seq<Request> {
    if p in a.exceptions then ExceptionPage(a, p, a.exceptions[p])
    else [Request(p, a.leftColumn), Request(p, a.rightColumn)]
  }

  function NormalPages(a: Areas, n: nat): seq<Request>
    decreases n
  {
    if n == 0 then [] else NormalPages(a, n - 1) + NormalPage(a, n - 1)
  }

  function HeaderRequests(a: Areas): seq<Request> {
    if a.headerLeft.Some? && a.headerRight.Some? then [Request(0, a.headerLeft), Request(0, a.headerRight)] else []
  }

  /** Normal mode: both header halves on the first page, the pages in order,
      then the footer on the last page. */
  function NormalPlan(a: Areas, n: nat): seq<Request> {
    HeaderRequests(a) + NormalPages(a, n) + [Request(-1, a.footer)]
  }

  function MobileFirst(a: Areas, skipped: set<int>, p: int): seq<Request> {
    var col := a.mobileColumn;
    var foot := a.mobileFooter;
    if p in skipped && col.Some? && foot.Some? then
      [Request(p, Some(Rect(col.value.left, col.value.top, col.value.right, foot.value.top)))]
    else if p == 0 && 0 in a.mobileHeader && col.Some? then
      var enc := a.mobileHeader[0];
      if col.value.bottom > enc.bottom then [Request(p, Some(Rect(col.value.left, enc.bottom, col.value.right, col.value.bottom)))] else []
    else if col.Some? then [Request(p, col)]
    else []
  }

  function MobilePage(a: Areas, skipped: set<int>, p: int, n: nat): seq<Request> {
    MobileFirst(a, skipped, p) + (if p == n - 1 && a.mobileFooter.Some? then [Request(p, a.mobileFooter)] else [])
  }

  function MobilePages(a: Areas, skipped: set<int>, k: nat, n: nat): seq<Request>
    decreases k
  {
    if k == 0 then [] else MobilePages(a, skipped, k - 1, n) + MobilePage(a, skipped, k - 1, n)
  }

  function Lookup(m: map<int, Rect>, k: int): Option<Rect> {
    if k in m then Some(m[k]) else None
  }

  /** Mobile mode: the first page's header, then per page the column (cut at
      the footer's top on skipped pages, below the header on the first page),
      and the footer on the last page. */
  function MobilePlan(a: Areas, skipped: set<int>, n: nat): seq<Request> {
    [Request(0, Lookup(a.mobileHeader, 0))] + MobilePages(a, skipped, n, n)
  }

  function Plan(a: Areas, skipped: set<int>, mobile: bool, n: nat): seq<Request> {
    if mobile then MobilePlan(a, skipped, n) else NormalPlan(a, n)
  }

  /** In normal mode the header halves come first, on page 0, and the footer
      last, on the last page (-1). */
  lemma NormalPlanEnds(a: Areas, n: nat)
    ensures var plan := NormalPlan(a, n);
      && plan[|plan| - 1] == Request(-1, a.footer)
      && (a.headerLeft.Some? && a.headerRight.Some? ==>
            plan[0] == Request(0, a.headerLeft) && plan[1] == Request(0, a.headerRight))
  {
  }

  /** On a page with an exception, every request before the exception itself
      ends at the exception's top and every request after it starts at its
      bottom; there are at most two of each. */
  lemma ExceptionPageOrder(a: Areas, p: int, ex: Rect)
    ensures var reqs := ExceptionPage(a, p, ex);
      var m := |Above(p, a.leftColumn, ex)| + |Above(p, a.rightColumn, ex)|;
      && m <= 2 && |reqs| <= 5
      && reqs[m] == Request(p, Some(ex))
      && (forall k | 0 <= k < |reqs| :: reqs[k].page == p && reqs[k].coords.Some?)
      && (forall k | 0 <= k < m :: reqs[k].coords.value.bottom == ex.top)
      && (forall k | m < k < |reqs| :: reqs[k].coords.value.top == ex.bottom)
  {
    var up := Above(p, a.leftColumn, ex) + Above(p, a.rightColumn, ex);
    var down := Below(p, a.leftColumn, ex) + Below(p, a.rightColumn, ex);
    assert ExceptionPage(a, p, ex) == up + [Request(p, Some(ex))] + down;
  }

  /** Every request of a normal page is for that page. */
  lemma NormalPageOn(a: Areas, p: int)
    ensures forall k | 0 <= k < |NormalPage(a, p)| :: NormalPage(a, p)[k].page == p
  {
    if p in a.exceptions {
      ExceptionPageOrder(a, p, a.exceptions[p]);
    }
  }

  /** Requests for pages below `n`, put together, stay below `n`. */
  lemma ConcatPagesBelow(xs: seq<Request>, ys: seq<Request>, n: int)
    requires forall k | 0 <= k < |xs| :: 0 <= xs[k].page < n
    requires forall k | 0 <= k < |ys| :: 0 <= ys[k].page < n
    ensures forall k | 0 <= k < |xs + ys| :: 0 <= (xs + ys)[k].page < n
  {
    forall k | 0 <= k < |xs + ys| ensures 0 <= (xs + ys)[k].page < n {
      if k >= |xs| { assert (xs + ys)[k] == ys[k - |xs|]; }
    }
  }

  /** Every request of the normal plan's page section is for a page of the
      document. */
  lemma {:induction false} NormalPagesInRange(a: Areas, n: nat)
    ensures forall k | 0 <= k < |NormalPages(a, n)| :: 0 <= NormalPages(a, n)[k].page < n
    decreases n
  {
    if n > 0 {
      NormalPagesInRange(a, n - 1);
      NormalPageOn(a, n - 1);
      ConcatPagesBelow(NormalPages(a, n - 1), NormalPage(a, n - 1), n);
    }
  }

  /** In mobile mode every page contributes at most one column crop and the
      last page also the footer, and every request is for a page of the
      document. */
  lemma {:induction false} MobilePagesShape(a: Areas, skipped: set<int>, k: nat, n: nat)
    requires k <= n
    ensures |MobilePages(a, skipped, k, n)| <= k + (if k == n && n > 0 then 1 else 0)
    ensures forall j | 0 <= j < |MobilePages(a, skipped, k, n)| :: 0 <= MobilePages(a, skipped, k, n)[j].page < k
    decreases k
  {
    if k > 0 {
      MobilePagesShape(a, skipped, k - 1, n);
      var prev: seq<Request> := MobilePages(a, skipped, k - 1, n);
      var page: seq<Request> := MobilePage(a, skipped, k - 1, n);
      MobilePageShape(a, skipped, k - 1, n);
      assert MobilePages(a, skipped, k, n) == prev + page;
      assert |prev| <= k - 1;
      ConcatPagesBelow(prev, page, k);
    }
  }

  /** One page contributes at most its column request, plus the footer on
      the last page, all for that page. */
  lemma MobilePageShape(a: Areas, skipped: set<int>, p: int, n: nat)
    ensures |MobilePage(a, skipped, p, n)| <= 1 + (if p == n - 1 then 1 else 0)
    ensures forall j | 0 <= j < |MobilePage(a, skipped, p, n)| :: MobilePage(a, skipped, p, n)[j].page == p
  {
    var first := MobileFirst(a, skipped, p);
    assert |first| <= 1 && forall j | 0 <= j < |first| :: first[j].page == p;
  }

  /** The areas `confirm_and_process` demands before it processes the PDF:
      the first page's mobile header and the mobile column in mobile mode;
      both header halves, the footer and both columns otherwise. */
  predicate Ready(a: Areas, mobile: bool) {
    if mobile then 0 in a.mobileHeader && a.mobileColumn.Some?
    else a.headerLeft.Some? && a.headerRight.Some? && a.footer.Some? && a.leftColumn.Some? && a.rightColumn.Some?
  }

  // ---------------------------------------------------------------------------
  // The session
  // ---------------------------------------------------------------------------

  class Session {
    var areas: Areas
    /** Pages whose collision check is off. */
    var skipped: set<int>
    /** Set while the checkbox is being refreshed; toggles are then ignored. */
    var updating: bool
    /** Mobile-layout mode. */
    var mobile: bool
    var crops: Crops

    constructor(mobile: bool)
      ensures areas == NoAreas && skipped == {} && !updating && this.mobile == mobile
      ensures crops == Crops([], false)
    {
      areas := NoAreas;
      skipped := {};
      updating := false;
      this.mobile := mobile;
      crops := Crops([], false);
    }

    /** `onselect`: the press and release points are normalised into a
        rectangle and stored under the area being edited. */
    method Select(key: string, page: int, x1: real, y1: real, x2: real, y2: real, xlim: (real, real), ylim: (real, real))
      modifies this
      ensures areas == SelectArea(old(areas), key, page, Normalise(x1, y1, x2, y2), xlim, ylim)
      ensures skipped == old(skipped) && updating == old(updating) && mobile == old(mobile) && crops == old(crops)
    {
      var sel := Normalise(x1, y1, x2, y2);
      areas := SelectArea(areas, key, page, sel, xlim, ylim);
    }

    /** `on_click`: a click with data while the mobile footer is being
        edited sets the footer from the clicked height; any other click
        changes nothing. */
    method Click(key: string, y: Option<real>, xlim: (real, real), ylim: (real, real))
      modifies this
      ensures areas == if key == "Pie_de_pagina_movil" && y.Some? then ClickFooter(old(areas), y.value, xlim, ylim) else old(areas)
      ensures skipped == old(skipped) && updating == old(updating) && mobile == old(mobile) && crops == old(crops)
    {
      if key == "Pie_de_pagina_movil" && y.Some? {
        areas := ClickFooter(areas, y.value, xlim, ylim);
      }
    }

    /** `toggle_omitir_colision`: switches the current page's collision check,
        unless the checkbox is being refreshed. */
    method ToggleSkip(page: int)
      modifies this
      ensures skipped == if updating then old(skipped) else Toggled(old(skipped), page)
      ensures areas == old(areas) && updating == old(updating) && mobile == old(mobile) && crops == old(crops)
    {
      if updating {
        return;
      }
      if page in skipped {
        skipped := skipped - {page};
      } else {
        skipped := skipped + {page};
      }
    }

    /** `check_perimeter`: scans the perimeter pixels in order and stops at
        the first non-white one outside the exception area. */
    method CheckPerimeter(img: Raster, rect: Rect, page: int, exceptions: map<int, Rect>) returns (r: Option<bool>)
      ensures r == Perimeter(img, rect, page, exceptions, skipped, RoleOf(areas, rect))
    {
      if page in skipped {
        return Some(false);
      }
      var pts := PerimeterPoints(rect, RoleOf(areas, rect));
      for i := 0 to |pts|
        invariant PerimeterScan(img, pts[i..], page, exceptions) == PerimeterScan(img, pts, page, exceptions)
      {
        assert pts[i..][1..] == pts[i + 1..];
        var (x, y) := pts[i];
        if !InException(x, y, page, exceptions) {
          var pixel := NpAt(img, y, x);
          if pixel.None? {
            return None;
          }
          if NotWhite(pixel.value) {
            return Some(true);
          }
        }
      }
      assert pts[|pts|..] == [];
      r := Some(false);
    }

    /** `crop_and_add_to_pdf`: records the crop when its area is set, its
        region is not white and its perimeter is clean; a crossed perimeter
        raises the flag instead. `ok` is false when an index error stops it. */
    method CropAndAdd(page: int, coords: Option<Rect>, pages: seq<Raster>) returns (ok: bool)
      modifies this
      ensures var s := Step(areas, skipped, mobile, pages, old(crops), Request(page, coords));
        ok == s.Some? && (ok ==> crops == s.value)
      ensures areas == old(areas) && skipped == old(skipped) && updating == old(updating) && mobile == old(mobile)
    {
      if coords.None? {
        return true;
      }
      var index := NpIndex(|pages|, page);
      if index.None? {
        return false;
      }
      var img := pages[index.value];
      var exceptions := if mobile then areas.mobileHeader else areas.exceptions;
      if RegionWhite(img, coords.value, WhiteThreshold) {
        return true;
      }
      var crossed := CheckPerimeter(img, coords.value, page, exceptions);
      if crossed.None? {
        return false;
      }
      if crossed.value {
        crops := crops.(issue := true);
        return true;
      }
      crops := crops.(data := crops.data + [(page, coords.value)]);
      ok := true;
    }

    /** `process_pdf`: issues the plan's requests in order; the whole plan
        runs unless an index error stops it, and then the run fails as a
        whole. The requests do not depend on the crops made so far (a crop
        changes neither the areas nor the skipped pages), so the plan is
        computed first and then issued. */
    method ProcessPdf(pages: seq<Raster>) returns (ok: bool)
      modifies this
      ensures var r := Run(areas, skipped, mobile, pages, old(crops), Plan(areas, skipped, mobile, |pages|));
        ok == r.Some? && (ok ==> crops == r.value)
      ensures areas == old(areas) && skipped == old(skipped) && updating == old(updating) && mobile == old(mobile)
    {
      var plan := Plan(areas, skipped, mobile, |pages|);
      ok := RunRequests(plan, pages);
    }

    /** The loop of `process_pdf` over any list of requests. */
    method RunRequests(plan: seq<Request>, pages: seq<Raster>) returns (ok: bool)
      modifies this
      ensures var r := Run(areas, skipped, mobile, pages, old(crops), plan);
        ok == r.Some? && (ok ==> crops == r.value)
      ensures areas == old(areas) && skipped == old(skipped) && updating == old(updating) && mobile == old(mobile)
    {
      ghost var st0 := crops;
      ghost var a, s, m := areas, skipped, mobile;
      for i := 0 to |plan|
        invariant areas == a && skipped == s && mobile == m && updating == old(updating)
        invariant Run(a, s, m, pages, st0, plan[..i]) == Some(crops)
      {
        ghost var before := crops;
        ok := CropAndAdd(plan[i].page, plan[i].coords, pages);
        assert plan[..i + 1] == plan[..i] + [plan[i]];
        RunSnoc(a, s, m, pages, st0, plan[..i], plan[i]);
        assert Run(a, s, m, pages, st0, plan[..i + 1]) == Step(a, s, m, pages, before, plan[i]);
        if !ok {
          RunStops(a, s, m, pages, st0, plan, i + 1);
          return;
        }
      }
      assert plan[..|plan|] == plan;
      ok := true;
    }

    /** `confirm_and_process`: with the required areas missing nothing is
        processed (and in normal mode the crops are dropped); otherwise the
        collision flag is reset, the plan is run, and the PDF is generated
        only when no perimeter was crossed, the crops being dropped when one
        was. `ok` is false when an index error stops the run. */
    method ConfirmAndProcess(pages: seq<Raster>) returns (ok: bool, generate: bool)
      modifies this
      ensures !Ready(areas, mobile) ==>
        (ok && !generate && crops == if mobile then old(crops).(issue := false) else Crops([], false))
      ensures Ready(areas, mobile) ==>
        var r := Run(areas, skipped, mobile, pages, old(crops).(issue := false), Plan(areas, skipped, mobile, |pages|));
        ok == r.Some? && (ok ==> generate == !r.value.issue && crops == (if r.value.issue then r.value.(data := []) else r.value))
      ensures !ok ==> !generate
      ensures areas == old(areas) && skipped == old(skipped) && updating == old(updating) && mobile == old(mobile)
    {
      crops := crops.(issue := false);
      generate := false;
      if !Ready(areas, mobile) {
        if !mobile {
          crops := Crops([], false);
        }
        return true, false;
      }
      ok := ProcessPdf(pages);
      if !ok {
        return;
      }
      if crops.issue {
        crops := crops.(data := []);
      } else {
        generate := true;
      }
    }
  }
}
