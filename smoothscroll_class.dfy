/** The `SmoothScroll` class: configurable offsets and nearest-scrollable
    fallback, `ScrollTo` (align the element with the container's top-left
    corner) and `ScrollIntoView` (scroll only the axes on which the element
    sticks out). */
module SmoothScrollClass {
  import opened Wrappers
  import opened Dom
  import opened Animation
  import Offsets

  datatype Axis = X | Y

  /** The computed `overflow-x`/`overflow-y` lets the element scroll. */
  predicate CanOverflow(n: Node, axis: Axis) {
    var overflow := if axis == X then n.overflowX else n.overflowY;
    overflow == "auto" || overflow == "scroll"
  }

  /** `ROUNDING_TOLERANCE`: one pixel of slack on Microsoft browsers. */
  function RoundingTolerance(microsoftBrowser: bool): (tol: int)
    ensures tol == 0 || tol == 1
    ensures tol == 1 <==> microsoftBrowser
  {
    if microsoftBrowser then 1 else 0
  }

  /** `HasScrollableSpace(el, axis)`: without the fallback every element
      counts as having room; with it, the content must exceed the client
      box by more than the rounding tolerance. */
  predicate HasScrollableSpace(fallbackToNearest: bool, microsoftBrowser: bool, n: Node, axis: Axis) {
    var tol := RoundingTolerance(microsoftBrowser);
    if !fallbackToNearest then true
    else if axis == Y then n.clientHeight + tol < n.scrollHeight
    else n.clientWidth + tol < n.scrollWidth
  }

  /** `IsScrollable(el)`: some axis has both room and a scrolling overflow. */
  predicate IsScrollable(fallbackToNearest: bool, microsoftBrowser: bool, n: Node)
  {
    (HasScrollableSpace(fallbackToNearest, microsoftBrowser, n, Y) && CanOverflow(n, Y)) ||
    (HasScrollableSpace(fallbackToNearest, microsoftBrowser, n, X) && CanOverflow(n, X))
  }

  /** Without the fallback, sizes do not matter: an element is scrollable
      exactly when one of its overflows is `auto` or `scroll`. */
  lemma ScrollableWithoutFallback(microsoftBrowser: bool, n: Node)
    ensures IsScrollable(false, microsoftBrowser, n) <==> CanOverflow(n, X) || CanOverflow(n, Y)
  {
  }

  /** With the fallback, an element is scrollable exactly when on some axis
      its content exceeds its client box by more than the tolerance and its
      overflow scrolls. */
  lemma ScrollableWithFallback(microsoftBrowser: bool, n: Node)
    ensures var tol := RoundingTolerance(microsoftBrowser);
      IsScrollable(true, microsoftBrowser, n) <==>
        (n.clientHeight + tol < n.scrollHeight && CanOverflow(n, Y)) ||
        (n.clientWidth + tol < n.scrollWidth && CanOverflow(n, X))
  {
  }

  /** Turning the fallback on only removes elements from the scrollable
      ones, and so does the Microsoft tolerance. */
  lemma FallbackNarrows(microsoftBrowser: bool, n: Node)
    ensures IsScrollable(true, microsoftBrowser, n) ==> IsScrollable(false, microsoftBrowser, n)
    ensures IsScrollable(true, true, n) ==> IsScrollable(true, false, n)
  {
  }

  /** Where the ancestor walk stops: the body, or a scrollable element. */
  predicate Stops(doc: Document, id: NodeId, fallbackToNearest: bool, microsoftBrowser: bool)
    requires id in doc.nodes
  {
    id == doc.body || IsScrollable(fallbackToNearest, microsoftBrowser, doc.nodes[id])
  }

  /** The outcome of `FindScrollableParent(el)`: test `el` itself, then each
      parent in turn; a parentless element that does not stop the walk is
      tested again forever. */
  function Resolve(doc: Document, id: NodeId, fallbackToNearest: bool, microsoftBrowser: bool): (w: Walk)
    requires doc.Valid() && id in doc.nodes
    ensures w.node in doc.nodes
    ensures w.Settles? ==> Stops(doc, w.node, fallbackToNearest, microsoftBrowser)
    ensures w.Spins? ==>
      doc.nodes[w.node].parent.None? && !Stops(doc, w.node, fallbackToNearest, microsoftBrowser)
    decreases doc.nodes[id].depth
  {
    if Stops(doc, id, fallbackToNearest, microsoftBrowser) then Settles(id)
    else match doc.nodes[id].parent
      case None => Spins(id)
      case Some(p) => Resolve(doc, p, fallbackToNearest, microsoftBrowser)
  }

  /** The position of the first element of `chain` that stops the walk:
      the body or a scrollable element. */
  function FirstStop(doc: Document, chain: seq<NodeId>, fallbackToNearest: bool, microsoftBrowser: bool): (i: Option<nat>)
    requires forall k :: 0 <= k < |chain| ==> chain[k] in doc.nodes
    ensures i.Some? ==> i.value < |chain|
  {
    if |chain| == 0 then None
    else if Stops(doc, chain[0], fallbackToNearest, microsoftBrowser) then Some(0)
    else match FirstStop(doc, chain[1..], fallbackToNearest, microsoftBrowser)
      case Some(i) => Some(i + 1)
      case None => None
  }

  /** FirstStop finds a stopping element with none before it, and finds
      none only when no element stops the walk. */
  lemma {:induction false} FirstStopIsFirst(doc: Document, chain: seq<NodeId>, fallbackToNearest: bool, microsoftBrowser: bool)
    requires forall k :: 0 <= k < |chain| ==> chain[k] in doc.nodes
    ensures var i := FirstStop(doc, chain, fallbackToNearest, microsoftBrowser);
      (i.Some? ==>
        Stops(doc, chain[i.value], fallbackToNearest, microsoftBrowser) &&
        forall j :: 0 <= j < i.value ==> !Stops(doc, chain[j], fallbackToNearest, microsoftBrowser)) &&
      (i.None? ==> forall j :: 0 <= j < |chain| ==> !Stops(doc, chain[j], fallbackToNearest, microsoftBrowser))
  {
    if |chain| > 0 && !Stops(doc, chain[0], fallbackToNearest, microsoftBrowser) {
      var tail := chain[1..];
      FirstStopIsFirst(doc, tail, fallbackToNearest, microsoftBrowser);
      forall j | 1 <= j < |chain| ensures chain[j] == tail[j - 1] { }
    }
  }

  /** Following parent links from `id` agrees with searching its ancestor
      chain (starting with `id` itself): the walk settles on the first
      element of the chain that is the body or scrollable, and spins on the
      last element of the chain when none of them is. */
  lemma {:induction false} ResolveFirstStop(doc: Document, id: NodeId, fallbackToNearest: bool, microsoftBrowser: bool)
    requires doc.Valid() && id in doc.nodes
    ensures var chain := Ancestors(doc, id);
      Resolve(doc, id, fallbackToNearest, microsoftBrowser) ==
        (match FirstStop(doc, chain, fallbackToNearest, microsoftBrowser)
         case Some(i) => Settles(chain[i])
         case None => Spins(chain[|chain| - 1]))
    decreases doc.nodes[id].depth
  {
    if !Stops(doc, id, fallbackToNearest, microsoftBrowser) {
      match doc.nodes[id].parent
      case None =>
        assert Ancestors(doc, id) == [id] + [];
        FirstStopCons(doc, id, [], fallbackToNearest, microsoftBrowser);
      case Some(p) =>
        ResolveFirstStop(doc, p, fallbackToNearest, microsoftBrowser);
        ResolveThroughParent(doc, id, p, fallbackToNearest, microsoftBrowser);
    }
  }

  /** The inductive step of ResolveFirstStop: what holds for the parent
      holds for an element that does not stop the walk. */
  lemma ResolveThroughParent(doc: Document, id: NodeId, p: NodeId, fallbackToNearest: bool, microsoftBrowser: bool)
    requires doc.Valid() && id in doc.nodes && doc.nodes[id].parent == Some(p)
    requires !Stops(doc, id, fallbackToNearest, microsoftBrowser)
    requires var rest := Ancestors(doc, p);
      Resolve(doc, p, fallbackToNearest, microsoftBrowser) ==
        (match FirstStop(doc, rest, fallbackToNearest, microsoftBrowser)
         case Some(i) => Settles(rest[i])
         case None => Spins(rest[|rest| - 1]))
    ensures var chain := Ancestors(doc, id);
      Resolve(doc, id, fallbackToNearest, microsoftBrowser) ==
        (match FirstStop(doc, chain, fallbackToNearest, microsoftBrowser)
         case Some(i) => Settles(chain[i])
         case None => Spins(chain[|chain| - 1]))
  {
    var chain := Ancestors(doc, id);
    var rest := Ancestors(doc, p);
    assert chain == [id] + rest;
    FirstStopCons(doc, id, rest, fallbackToNearest, microsoftBrowser);
    match FirstStop(doc, rest, fallbackToNearest, microsoftBrowser)
    case Some(i) =>
      assert chain[i + 1] == rest[i];
    case None =>
      assert chain[|chain| - 1] == rest[|rest| - 1];
  }

  /** FirstStop on a chain with one more element in front. */
  lemma FirstStopCons(doc: Document, id: NodeId, rest: seq<NodeId>, fallbackToNearest: bool, microsoftBrowser: bool)
    requires id in doc.nodes && forall k :: 0 <= k < |rest| ==> rest[k] in doc.nodes
    ensures var chain := [id] + rest;
      (forall k :: 0 <= k < |chain| ==> chain[k] in doc.nodes) &&
      FirstStop(doc, chain, fallbackToNearest, microsoftBrowser) ==
        (if Stops(doc, id, fallbackToNearest, microsoftBrowser) then Some(0)
         else match FirstStop(doc, rest, fallbackToNearest, microsoftBrowser)
           case Some(i) => Some(i + 1)
           case None => None)
  {
    var chain := [id] + rest;
    assert chain[1..] == rest;
    assert forall k :: 0 < k < |chain| ==> chain[k] == rest[k - 1];
  }

  /** When the body is an ancestor of the element (or the element itself)
      the walk always ends, and it ends on the body or a scrollable
      element. */
  lemma SettlesBelowBody(doc: Document, id: NodeId, fallbackToNearest: bool, microsoftBrowser: bool)
    requires doc.Valid() && id in doc.nodes
    requires doc.body in Ancestors(doc, id)
    ensures var w := Resolve(doc, id, fallbackToNearest, microsoftBrowser);
      w.Settles? && w.node in doc.nodes &&
      (w.node == doc.body || IsScrollable(fallbackToNearest, microsoftBrowser, doc.nodes[w.node]))
  {
    ResolveFirstStop(doc, id, fallbackToNearest, microsoftBrowser);
    var chain := Ancestors(doc, id);
    FirstStopIsFirst(doc, chain, fallbackToNearest, microsoftBrowser);
    var i :| 0 <= i < |chain| && chain[i] == doc.body;
    assert Stops(doc, chain[i], fallbackToNearest, microsoftBrowser);
  }

  /** `options?.offsetX`, `options?.offsetY`, `options?.fallbackToNearest`,
      each possibly left out. */
  datatype Options = Options(offsetX: Option<real>, offsetY: Option<real>, fallbackToNearest: Option<bool>)

  /** What a scroll request hands on: nothing; a walk that never ends; the
      browser's native smooth scroll to `(x, y)`; or the animation run by
      `Step` with the given context on the given container. */
  datatype Dispatch =
    | Skip
    | Hang(at: NodeId)
    | Native(box: Box, x: real, y: real)
    | Manual(box: Box, ctx: Context)

  /** Where `Step` writes: the window for the body, the element otherwise. */
  function ContainerBox(doc: Document, p: NodeId): Box {
    if p == doc.body then Window else Element(p)
  }

  /** The container's current scroll position: the window's for the body,
      the element's own otherwise. */
  function StartPosition(doc: Document, p: NodeId, host: Host): Position
    requires p in doc.nodes
  {
    if p == doc.body then Position(host.scrollX, host.scrollY)
    else Position(doc.nodes[p].scrollLeft, doc.nodes[p].scrollTop)
  }

  /** The scroll position, from `start`, that brings an element edge at
      `edge` to `offset` pixels past the container edge at `parentEdge`. */
  function AlignDestination(start: real, edge: real, parentEdge: real, offset: real): (r: real)
    ensures edge - (r - start) == parentEdge + offset
  {
    start + edge - parentEdge - offset
  }

  /** `this.offsetX || ConvertToPx(REGEX.exec(style)?.[1])`: a non-zero
      configured offset, otherwise the one the container's inline style
      declares. */
  function ResolveOffset(configured: real, style: string, name: string, rootFontSize: real): real {
    if configured != 0.0 then configured else Offsets.StyleOffset(style, name, rootFontSize)
  }

  /** A configured offset wins exactly when it is non-zero; the default 0
      falls through to the style, which gives 0 when it declares nothing
      and the declared length when it starts with a declaration. */
  lemma OffsetPrecedence(configured: real, style: string, name: string, rootFontSize: real)
    ensures configured != 0.0 ==> ResolveOffset(configured, style, name, rootFontSize) == configured
    ensures configured == 0.0 ==>
      ResolveOffset(configured, style, name, rootFontSize) == Offsets.StyleOffset(style, name, rootFontSize)
    ensures configured == 0.0 && (forall q: nat :: Offsets.NoDeclAt(style, name, q)) ==>
      ResolveOffset(configured, style, name, rootFontSize) == 0.0
  {
    if configured == 0.0 && forall q: nat :: Offsets.NoDeclAt(style, name, q) {
      Offsets.StyleOffsetWithoutDecl(style, name, rootFontSize);
    }
  }

  /** With no configured offset, a container whose style starts with a
      `--ss-scroll-offset-y:` declaration of a whole number of pixels or
      rems is offset vertically by that length in pixels. */
  lemma StyleOffsetWhenUnconfigured(style: string, ws: string, n: nat, u: Offsets.Unit, rest: string, rootFontSize: real)
    requires forall k :: 0 <= k < |ws| ==> Offsets.IsSpace(ws[k])
    requires style == Offsets.OffsetYProperty + ws + (Offsets.NatToString(n) + Offsets.UnitText(u)) + rest
    ensures ResolveOffset(0.0, style, Offsets.OffsetYProperty, rootFontSize) ==
      if u == Offsets.Px then n as real else Offsets.RemToPx(n as real, rootFontSize)
  {
    Offsets.StyleOffsetRoundTrip(Offsets.OffsetYProperty, ws, n, u, rest, rootFontSize);
  }

  /** What `ScrollTo(el)` does once the container is known: `el` absent
      means the body with zero rectangles and destination `(0, 0)`. */
  function ScrollToDispatch(doc: Document, el: Option<NodeId>, w: Walk, host: Host, offsetX: real, offsetY: real): Dispatch
    requires el.Some? ==> el.value in doc.nodes
    requires w.node in doc.nodes
  {
    match w
    case Spins(n) => Hang(n)
    case Settles(p) =>
      var parentRect := if p == doc.body then ZeroRect else doc.nodes[p].rect;
      var clientRect := if el.Some? then doc.nodes[el.value].rect else ZeroRect;
      var start := StartPosition(doc, p, host);
      var style := doc.nodes[p].style.GetOr("");
      var dx := ResolveOffset(offsetX, style, Offsets.OffsetXProperty, host.rootFontSize);
      var dy := ResolveOffset(offsetY, style, Offsets.OffsetYProperty, host.rootFontSize);
      var x := if el.Some? then AlignDestination(start.left, clientRect.left, parentRect.left, dx) else 0.0;
      var y := if el.Some? then AlignDestination(start.top, clientRect.top, parentRect.top, dy) else 0.0;
      var box := ContainerBox(doc, p);
      if host.smoothScrollSupported then Native(box, x, y)
      else Manual(box, Context(start.left, start.top, x, y, host.now))
  }

  /** The destination of a scroll request, whichever way it is carried out. */
  function Destination(d: Dispatch): (p: Option<Position>)
    ensures p.Some? <==> d.Native? || d.Manual?
  {
    match d
    case Native(_, x, y) => Some(Position(x, y))
    case Manual(_, ctx) => Some(Position(ctx.x, ctx.y))
    case _ => None
  }

  /** `ScrollTo(el)` aligns the element's top-left corner with the
      container's, moved in by the offsets; for the body the container
      rectangle is taken as zero, so the element's viewport position plus
      the window's scroll position is used. The scroll runs on the window
      for the body, and starts from the container's current position. */
  lemma ScrollToAligns(doc: Document, el: NodeId, p: NodeId, host: Host, offsetX: real, offsetY: real)
    requires el in doc.nodes && p in doc.nodes
    ensures var d := ScrollToDispatch(doc, Some(el), Settles(p), host, offsetX, offsetY);
      var parentRect := if p == doc.body then ZeroRect else doc.nodes[p].rect;
      var rect := doc.nodes[el].rect;
      var start := StartPosition(doc, p, host);
      var style := doc.nodes[p].style.GetOr("");
      var to := Destination(d).value;
      (d.Native? <==> host.smoothScrollSupported) &&
      (d.Native? || d.Manual?) && d.box == ContainerBox(doc, p) &&
      (d.Manual? ==> d.ctx.startX == start.left && d.ctx.startY == start.top && d.ctx.startTime == host.now) &&
      rect.left - (to.left - start.left) ==
        parentRect.left + ResolveOffset(offsetX, style, Offsets.OffsetXProperty, host.rootFontSize) &&
      rect.top - (to.top - start.top) ==
        parentRect.top + ResolveOffset(offsetY, style, Offsets.OffsetYProperty, host.rootFontSize)
  {
  }

  /** `ScrollTo()` with no element scrolls the window to its origin. */
  lemma ScrollToOrigin(doc: Document, host: Host, offsetX: real, offsetY: real)
    requires doc.body in doc.nodes
    ensures var d := ScrollToDispatch(doc, None, Settles(doc.body), host, offsetX, offsetY);
      (d.Native? || d.Manual?) && d.box == Window && Destination(d) == Some(Position(0.0, 0.0)) &&
      (d.Manual? ==> d.ctx == Context(host.scrollX, host.scrollY, 0.0, 0.0, host.now))
  {
  }

  /** How far one axis must scroll so the element's span `[lo, hi]` comes
      inside the container's span `[parentLo, parentHi]`: an element
      sticking out at the start is brought `offset` pixels past the start
      edge; one sticking out only at the end is brought `offset` pixels
      inside the end edge; one inside does not move. */
  function EdgeDelta(lo: real, hi: real, parentLo: real, parentHi: real, offset: real): (delta: real)
    ensures lo < parentLo ==> lo - delta == parentLo + offset
    ensures parentLo <= lo && parentHi < hi ==> hi - delta == parentHi - offset
    ensures parentLo <= lo && hi <= parentHi ==> delta == 0.0
  {
    if lo < parentLo then lo - parentLo - offset
    else if hi > parentHi then hi - parentHi + offset
    else 0.0
  }

  /** The container rectangle `ScrollIntoView` compares against: the
      viewport for the body, the element's bounding rectangle otherwise. */
  function VisibleRect(doc: Document, p: NodeId, host: Host): Rect
    requires p in doc.nodes
  {
    if p == doc.body then ViewportRect(host.innerWidth, host.innerHeight) else doc.nodes[p].rect
  }

  /** What `ScrollIntoView(el)` does once the container `p` is known. */
  function IntoViewDispatch(doc: Document, el: NodeId, p: NodeId, host: Host, offsetX: real, offsetY: real): Dispatch
    requires el in doc.nodes && p in doc.nodes
  {
    var rect := doc.nodes[el].rect;
    var parentRect := VisibleRect(doc, p, host);
    var start := StartPosition(doc, p, host);
    var dx := EdgeDelta(rect.left, rect.right, parentRect.left, parentRect.right, offsetX);
    var dy := EdgeDelta(rect.top, rect.bottom, parentRect.top, parentRect.bottom, offsetY);
    if dx == 0.0 && dy == 0.0 then Skip
    else Manual(ContainerBox(doc, p), Context(start.left, start.top, start.left + dx, start.top + dy, host.now))
  }

  /** What `ScrollIntoView(el)` does once the walk from `el` has ended:
      nothing more when it never ends, the edge rule on the container it
      settles on otherwise. */
  function IntoViewOutcome(doc: Document, el: NodeId, w: Walk, host: Host, offsetX: real, offsetY: real): Dispatch
    requires el in doc.nodes && w.node in doc.nodes
  {
    match w
    case Spins(n) => Hang(n)
    case Settles(p) => IntoViewDispatch(doc, el, p, host, offsetX, offsetY)
  }

  /** An element already inside the visible rectangle on both axes is left
      where it is. */
  lemma IntoViewSkipsVisible(doc: Document, el: NodeId, p: NodeId, host: Host, offsetX: real, offsetY: real)
    requires el in doc.nodes && p in doc.nodes
    requires var rect := doc.nodes[el].rect; var parentRect := VisibleRect(doc, p, host);
      parentRect.left <= rect.left && rect.right <= parentRect.right &&
      parentRect.top <= rect.top && rect.bottom <= parentRect.bottom
    ensures IntoViewDispatch(doc, el, p, host, offsetX, offsetY) == Skip
  {
  }

  /** `ScrollIntoView` does nothing exactly when both edge deltas are 0;
      otherwise it animates (never natively) from the current position.
      The destination moves the top edge of an element sticking out above
      `offsetY` pixels below the container's top edge, the bottom edge of
      one sticking out only below `offsetY` pixels above the container's
      bottom edge, and leaves an axis on which the element lies inside the
      container where it is (likewise horizontally). */
  lemma IntoViewBringsInside(doc: Document, el: NodeId, p: NodeId, host: Host, offsetX: real, offsetY: real)
    requires el in doc.nodes && p in doc.nodes
    ensures var d := IntoViewDispatch(doc, el, p, host, offsetX, offsetY);
      var rect := doc.nodes[el].rect;
      var parentRect := VisibleRect(doc, p, host);
      var start := StartPosition(doc, p, host);
      var dx := EdgeDelta(rect.left, rect.right, parentRect.left, parentRect.right, offsetX);
      var dy := EdgeDelta(rect.top, rect.bottom, parentRect.top, parentRect.bottom, offsetY);
      (d.Skip? || d.Manual?) &&
      (d.Skip? <==> dx == 0.0 && dy == 0.0) &&
      (d.Manual? ==>
        (parentRect.top <= rect.top && rect.bottom <= parentRect.bottom ==> d.ctx.y == start.top) &&
        (parentRect.left <= rect.left && rect.right <= parentRect.right ==> d.ctx.x == start.left) &&
        d.box == ContainerBox(doc, p) &&
        d.ctx.startX == start.left && d.ctx.startY == start.top && d.ctx.startTime == host.now &&
        (rect.top < parentRect.top ==> rect.top - (d.ctx.y - start.top) == parentRect.top + offsetY) &&
        (parentRect.top <= rect.top && parentRect.bottom < rect.bottom ==>
          rect.bottom - (d.ctx.y - start.top) == parentRect.bottom - offsetY) &&
        (rect.left < parentRect.left ==> rect.left - (d.ctx.x - start.left) == parentRect.left + offsetX) &&
        (parentRect.left <= rect.left && parentRect.right < rect.right ==>
          rect.right - (d.ctx.x - start.left) == parentRect.right - offsetX))
  {
  }

  /** With offsets that are not negative, an element sticking out of the
      visible rectangle on any side is scrolled. */
  lemma IntoViewScrollsOutside(doc: Document, el: NodeId, p: NodeId, host: Host, offsetX: real, offsetY: real)
    requires el in doc.nodes && p in doc.nodes
    requires 0.0 <= offsetX && 0.0 <= offsetY
    requires var rect := doc.nodes[el].rect; var parentRect := VisibleRect(doc, p, host);
      rect.left < parentRect.left || parentRect.right < rect.right ||
      rect.top < parentRect.top || parentRect.bottom < rect.bottom
    ensures IntoViewDispatch(doc, el, p, host, offsetX, offsetY).Manual?
  {
  }

  class SmoothScroll {
    var offsetX: real
    var offsetY: real
    var fallbackToNearest: bool

    /** Options left out default to offsets 0 and no fallback. */
    constructor(options: Option<Options>)
      ensures offsetX == (if options.Some? then options.value.offsetX.GetOr(0.0) else 0.0)
      ensures offsetY == (if options.Some? then options.value.offsetY.GetOr(0.0) else 0.0)
      ensures fallbackToNearest == (options.Some? && options.value.fallbackToNearest.GetOr(false))
    {
      offsetX := if options.Some? then options.value.offsetX.GetOr(0.0) else 0.0;
      offsetY := if options.Some? then options.value.offsetY.GetOr(0.0) else 0.0;
      fallbackToNearest := if options.Some? then options.value.fallbackToNearest.GetOr(false) else false;
    }

    /** `FindScrollableParent(el)`: climbs from `el` until it reaches the
        body or a scrollable element; reports `Spins` where the source loops
        forever. */
    method FindScrollableParent(doc: Document, el: NodeId, microsoftBrowser: bool) returns (w: Walk)
      requires doc.Valid() && el in doc.nodes
      ensures w == Resolve(doc, el, fallbackToNearest, microsoftBrowser)
    {
      var cur := el;
      while cur != doc.body && !IsScrollable(fallbackToNearest, microsoftBrowser, doc.nodes[cur])
        invariant cur in doc.nodes
        invariant Resolve(doc, cur, fallbackToNearest, microsoftBrowser) == Resolve(doc, el, fallbackToNearest, microsoftBrowser)
        decreases doc.nodes[cur].depth
      {
        match doc.nodes[cur].parent
        case Some(p) =>
          cur := p;
        case None =>
          return Spins(cur);
      }
      return Settles(cur);
    }

    /** `ScrollTo(el)` */
    method ScrollTo(doc: Document, el: Option<NodeId>, host: Host) returns (d: Dispatch)
      requires doc.Valid() && (el.Some? ==> el.value in doc.nodes)
      ensures el.None? ==> d == ScrollToDispatch(doc, el, Settles(doc.body), host, offsetX, offsetY)
      ensures el.Some? ==>
        d == ScrollToDispatch(doc, el, Resolve(doc, el.value, fallbackToNearest, host.microsoftBrowser), host, offsetX, offsetY)
    {
      var w := Settles(doc.body);
      if el.Some? {
        w := FindScrollableParent(doc, el.value, host.microsoftBrowser);
      }
      d := ScrollToDispatch(doc, el, w, host, offsetX, offsetY);
    }

    /** `ScrollIntoView(el)` */
    method ScrollIntoView(doc: Document, el: Option<NodeId>, host: Host) returns (d: Dispatch)
      requires doc.Valid() && (el.Some? ==> el.value in doc.nodes)
      ensures el.None? ==> d == Skip
      ensures el.Some? ==>
        d == IntoViewOutcome(doc, el.value, Resolve(doc, el.value, fallbackToNearest, host.microsoftBrowser), host, offsetX, offsetY)
    {
      if el.None? {
        return Skip;
      }
      var w := FindScrollableParent(doc, el.value, host.microsoftBrowser);
      if w.Spins? {
        return Hang(w.node);
      }
      var p := w.node;
      var parentRect := if p == doc.body then ViewportRect(host.innerWidth, host.innerHeight) else doc.nodes[p].rect;
      var clientRect := doc.nodes[el.value].rect;
      var startX := if p == doc.body then host.scrollX else doc.nodes[p].scrollLeft;
      var startY := if p == doc.body then host.scrollY else doc.nodes[p].scrollTop;
      var scrollDeltaX := 0.0;
      var scrollDeltaY := 0.0;
      if clientRect.top < parentRect.top {
        scrollDeltaY := clientRect.top - parentRect.top - offsetY;
      } else if clientRect.bottom > parentRect.bottom {
        scrollDeltaY := clientRect.bottom - parentRect.bottom + offsetY;
      }
      if clientRect.left < parentRect.left {
        scrollDeltaX := clientRect.left - parentRect.left - offsetX;
      } else if clientRect.right > parentRect.right {
        scrollDeltaX := clientRect.right - parentRect.right + offsetX;
      }
      if scrollDeltaX == 0.0 && scrollDeltaY == 0.0 {
        return Skip;
      }
      var box := if p == doc.body then Window else Element(p);
      d := Manual(box, Context(startX, startY, startX + scrollDeltaX, startY + scrollDeltaY, host.now));
    }
  }
}
