/** The stand-alone `smoothscroll(el)` function: always falls back to the
    nearest ancestor with room to scroll, and scrolls the element to the
    container's top-left corner without offsets. */
module SmoothScrollFunction {
  import opened Wrappers
  import opened Dom
  import opened Animation
  import Offsets
  import Class = SmoothScrollClass

  /** `hasScrollableSpace(el, axis)`: the content exceeds the client box by
      more than the rounding tolerance; there is no switch that turns the
      size test off. */
  predicate HasScrollableSpace(roundingTolerance: int, n: Node, axis: Class.Axis) {
    if axis == Class.Y then n.clientHeight + roundingTolerance < n.scrollHeight
    else n.clientWidth + roundingTolerance < n.scrollWidth
  }

  /** `isScrollable(el)`: some axis has both room and a scrolling overflow
      (`canOverflow` is the class's `CanOverflow`). */
  predicate IsScrollable(roundingTolerance: int, n: Node) {
    (HasScrollableSpace(roundingTolerance, n, Class.Y) && Class.CanOverflow(n, Class.Y)) ||
    (HasScrollableSpace(roundingTolerance, n, Class.X) && Class.CanOverflow(n, Class.X))
  }

  /** The function's scrollability test is the class's with the fallback
      to the nearest scrollable element switched on. */
  lemma ScrollableAsClassWithFallback(microsoftBrowser: bool, n: Node)
    ensures IsScrollable(Class.RoundingTolerance(microsoftBrowser), n) <==>
      Class.IsScrollable(true, microsoftBrowser, n)
  {
  }

  /** `findScrollableParent(el)`: the class's walk with the fallback on;
      reports `Spins` where the source loops forever. */
  method FindScrollableParent(doc: Document, el: NodeId, microsoftBrowser: bool) returns (w: Walk)
    requires doc.Valid() && el in doc.nodes
    ensures w == Class.Resolve(doc, el, true, microsoftBrowser)
  {
    var roundingTolerance := Class.RoundingTolerance(microsoftBrowser);
    var cur := el;
    while cur != doc.body && !IsScrollable(roundingTolerance, doc.nodes[cur])
      invariant cur in doc.nodes
      invariant Class.Resolve(doc, cur, true, microsoftBrowser) == Class.Resolve(doc, el, true, microsoftBrowser)
      decreases doc.nodes[cur].depth
    {
      ScrollableAsClassWithFallback(microsoftBrowser, doc.nodes[cur]);
      match doc.nodes[cur].parent
      case Some(p) =>
        cur := p;
      case None =>
        return Spins(cur);
    }
    ScrollableAsClassWithFallback(microsoftBrowser, doc.nodes[cur]);
    return Settles(cur);
  }

  /** What `scroll()` does once the container `p` is known: the destination
      is measured from the container's own `scrollLeft`/`scrollTop` and
      bounding rectangle even when it is the body; the native scroll goes
      to the container element, the animation starts from the window's
      position and writes to the window when it is the body. */
  function ScrollDispatch(doc: Document, el: NodeId, p: NodeId, host: Host): Class.Dispatch
    requires el in doc.nodes && p in doc.nodes
  {
    var parent := doc.nodes[p];
    var clientRect := doc.nodes[el].rect;
    var start := Class.StartPosition(doc, p, host);
    var x := Class.AlignDestination(parent.scrollLeft, clientRect.left, parent.rect.left, 0.0);
    var y := Class.AlignDestination(parent.scrollTop, clientRect.top, parent.rect.top, 0.0);
    if host.smoothScrollSupported then Class.Native(Element(p), x, y)
    else Class.Manual(Class.ContainerBox(doc, p), Context(start.left, start.top, x, y, host.now))
  }

  /** What `scroll()` does once the walk from `el` has ended: nothing more
      when it never ends, the request for the container it settles on
      otherwise. */
  function ScrollOutcome(doc: Document, el: NodeId, w: Walk, host: Host): Class.Dispatch
    requires el in doc.nodes && w.node in doc.nodes
  {
    match w
    case Spins(n) => Class.Hang(n)
    case Settles(p) => ScrollDispatch(doc, el, p, host)
  }

  /** The destination brings the element's top-left corner exactly to the
      container's: no offsets are applied. */
  lemma ScrollAligns(doc: Document, el: NodeId, p: NodeId, host: Host)
    requires el in doc.nodes && p in doc.nodes
    ensures var d := ScrollDispatch(doc, el, p, host);
      var parent := doc.nodes[p];
      var rect := doc.nodes[el].rect;
      var to := Class.Destination(d).value;
      (d.Native? <==> host.smoothScrollSupported) &&
      (d.Native? ==> d.box == Element(p)) &&
      (d.Manual? ==>
        d.box == Class.ContainerBox(doc, p) && d.ctx.startTime == host.now &&
        Position(d.ctx.startX, d.ctx.startY) == Class.StartPosition(doc, p, host)) &&
      rect.left - (to.left - parent.scrollLeft) == parent.rect.left &&
      rect.top - (to.top - parent.scrollTop) == parent.rect.top
  {
  }

  /** For a container other than the body whose style declares no offsets,
      an instance of the class without configured offsets sends the same
      request as this function. */
  lemma AgreesWithClassScrollTo(doc: Document, el: NodeId, p: NodeId, host: Host)
    requires el in doc.nodes && p in doc.nodes && p != doc.body
    requires var style := doc.nodes[p].style.GetOr("");
      (forall q: nat :: Offsets.NoDeclAt(style, Offsets.OffsetXProperty, q)) &&
      (forall q: nat :: Offsets.NoDeclAt(style, Offsets.OffsetYProperty, q))
    ensures ScrollDispatch(doc, el, p, host) == Class.ScrollToDispatch(doc, Some(el), Settles(p), host, 0.0, 0.0)
  {
    var style := doc.nodes[p].style.GetOr("");
    Class.OffsetPrecedence(0.0, style, Offsets.OffsetXProperty, host.rootFontSize);
    Class.OffsetPrecedence(0.0, style, Offsets.OffsetYProperty, host.rootFontSize);
  }

  /** `smoothscroll(el)` */
  method Smoothscroll(doc: Document, el: Option<NodeId>, host: Host) returns (d: Class.Dispatch)
    requires doc.Valid() && (el.Some? ==> el.value in doc.nodes)
    ensures el.None? ==> d == Class.Skip
    ensures el.Some? ==>
      d == ScrollOutcome(doc, el.value, Class.Resolve(doc, el.value, true, host.microsoftBrowser), host)
  {
    if el.None? {
      return Class.Skip;
    }
    var w := FindScrollableParent(doc, el.value, host.microsoftBrowser);
    if w.Spins? {
      return Class.Hang(w.node);
    }
    d := ScrollDispatch(doc, el.value, w.node, host);
  }
}
