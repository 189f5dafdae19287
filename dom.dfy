/** The host document as the scroller sees it: a parent map over element
    records that carry the layout values the scroller reads (computed
    overflow, client and scroll sizes, scroll offsets, bounding rectangle and
    the inline `style` attribute), and the host values read from `window`. */
module Dom {
  import opened Wrappers

  type NodeId = nat

  /** A `DOMRectReadOnly` by its four edges. */
  datatype Rect = Rect(left: real, top: real, right: real, bottom: real)

  /** `new DOMRectReadOnly(0, 0, 0, 0)` */
  const ZeroRect := Rect(0.0, 0.0, 0.0, 0.0)

  /** `new DOMRectReadOnly(0, 0, width, height)` */
  function ViewportRect(width: real, height: real): Rect {
    Rect(0.0, 0.0, width, height)
  }

  datatype Node = Node(
    parent: Option<NodeId>,   // parentElement: None for the root and for detached subtrees
    depth: nat,               // number of ancestors; a parent sits at a smaller depth
    overflowX: string,        // computed overflow-x
    overflowY: string,        // computed overflow-y
    clientWidth: int,
    clientHeight: int,
    scrollWidth: int,
    scrollHeight: int,
    scrollLeft: real,
    scrollTop: real,
    rect: Rect,               // getBoundingClientRect()
    style: Option<string>)    // getAttribute('style')

  /** The element tree and which of its elements is `document.body`. */
  datatype Document = Document(nodes: map<NodeId, Node>, body: NodeId) {

    /** Every parent link stays inside the map and goes one level up, so the
        tree has no cycles. */
    ghost predicate Valid() {
      body in nodes &&
      forall id :: id in nodes && nodes[id].parent.Some? ==>
        nodes[id].parent.value in nodes &&
        nodes[nodes[id].parent.value].depth < nodes[id].depth
    }
  }

  /** The chain `id`, its parentElement, its grandparent, ... up to the
      first element without a parent. */
  function Ancestors(doc: Document, id: NodeId): (chain: seq<NodeId>)
    requires doc.Valid() && id in doc.nodes
    ensures |chain| > 0 && chain[0] == id
    ensures forall i :: 0 <= i < |chain| ==> chain[i] in doc.nodes
    ensures doc.nodes[chain[|chain| - 1]].parent.None?
    decreases doc.nodes[id].depth
  {
    match doc.nodes[id].parent
    case None => [id]
    case Some(p) => [id] + Ancestors(doc, p)
  }

  /** Each element of the chain is the parentElement of the one before. */
  lemma {:induction false} AncestorsFollowParents(doc: Document, id: NodeId)
    requires doc.Valid() && id in doc.nodes
    ensures forall i :: 0 <= i < |Ancestors(doc, id)| - 1 ==>
      doc.nodes[Ancestors(doc, id)[i]].parent == Some(Ancestors(doc, id)[i + 1])
    decreases doc.nodes[id].depth
  {
    match doc.nodes[id].parent
    case None =>
    case Some(p) =>
      AncestorsFollowParents(doc, p);
      forall i | 0 <= i < |Ancestors(doc, id)| - 1
        ensures doc.nodes[Ancestors(doc, id)[i]].parent == Some(Ancestors(doc, id)[i + 1])
      {
        if i > 0 {
          ParentLinkShifted(doc, id, p, i - 1);
        }
      }
  }

  /** A link in the parent's chain is a link of `id`'s chain, one place later. */
  lemma ParentLinkShifted(doc: Document, id: NodeId, p: NodeId, j: nat)
    requires doc.Valid() && id in doc.nodes && doc.nodes[id].parent == Some(p)
    requires j < |Ancestors(doc, p)| - 1
    requires doc.nodes[Ancestors(doc, p)[j]].parent == Some(Ancestors(doc, p)[j + 1])
    ensures j + 2 < |Ancestors(doc, id)|
    ensures doc.nodes[Ancestors(doc, id)[j + 1]].parent == Some(Ancestors(doc, id)[j + 2])
  {
    assert Ancestors(doc, id) == [id] + Ancestors(doc, p);
  }

  /** The values the scroller reads from the host at call time. */
  datatype Host = Host(
    scrollX: real,                 // window.scrollX
    scrollY: real,                 // window.scrollY
    innerWidth: real,
    innerHeight: real,
    rootFontSize: real,            // parseFloat(getComputedStyle(documentElement).fontSize)
    microsoftBrowser: bool,        // navigator.userAgent matches MSIE |Trident/|Edge/
    smoothScrollSupported: bool,   // CSS.supports('scroll-behavior', 'smooth')
    now: real)                     // the clock reading taken as the animation's start time

  /** What the ancestor walk does: it stops at a node, or it never ends
      because it reached a parentless node that is neither the body nor
      scrollable and keeps testing that node forever. */
  datatype Walk = Settles(node: NodeId) | Spins(node: NodeId)

  /** Where scroll positions are written: the window (`scrollTo(x, y)`) or an
      element's own `scrollLeft`/`scrollTop`. */
  datatype Box = Window | Element(id: NodeId)
}
