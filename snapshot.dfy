/**
 * The DOM snapshot the browser hands the crawler: parallel node arrays
 * indexing into one string table, the layout table, and the viewport.
 */
module Snapshots {
  import opened PyText
  import opened Attributes
  import opened Ancestry

  /** A bounding box `[x, y, width, height]`. */
  datatype Rect = Rect(x: real, y: real, width: real, height: real)

  /** Scroll offsets (`pageXOffset`, `pageYOffset`) and screen size. */
  datatype Window = Window(left: real, upper: real, width: real, height: real)

  datatype Snapshot = Snapshot(
    strings: seq<string>,
    nodeName: seq<int>,           // string references
    nodeValue: seq<int>,          // string references, -1 for none
    attributes: seq<seq<int>>,    // flat key/value string references per node
    parentIndex: seq<int>,        // -1 for the document root
    backendNodeId: seq<int>,
    clickable: set<int>,          // isClickable.index
    inputValueIndex: seq<int>,    // inputValue.index
    inputValueValue: seq<int>,    // inputValue.value, string references
    layoutNodeIndex: seq<int>,
    bounds: seq<Rect>)

  /** The shape the browser guarantees: equal-length arrays, every reference in range, parents first. */
  predicate WellFormed(s: Snapshot) {
    var n := |s.nodeName|;
    && |s.nodeValue| == n && |s.attributes| == n && |s.parentIndex| == n && |s.backendNodeId| == n
    && (forall i :: 0 <= i < n ==> ValidIndex(s.strings, s.nodeName[i]))
    && (forall i :: 0 <= i < n ==> -1 <= s.nodeValue[i] < |s.strings|)
    && (forall i :: 0 <= i < n ==> RefsValid(s.attributes[i], s.strings))
    && ParentsBefore(s.parentIndex)
    && |s.inputValueValue| == |s.inputValueIndex|
    && (forall j :: 0 <= j < |s.inputValueValue| ==> s.inputValueValue[j] < |s.strings|)
    && |s.bounds| == |s.layoutNodeIndex|
  }

  /** Tags that never carry visible content of their own. */
  const Blacklist: set<string> :=
    {"html", "head", "title", "meta", "iframe", "body", "script", "style", "path", "svg", "br", "::marker"}

  /** The attribute keys the crawler extracts, in the order it asks for them. */
  const AttributeKeys: seq<string> := ["type", "placeholder", "aria-label", "title", "alt"]

  lemma AttributeKeysDistinct()
    ensures Distinct(AttributeKeys)
  {
  }

  /** Every node's lower-cased tag name. */
  function Names(s: Snapshot): (r: seq<string>)
    requires WellFormed(s)
    ensures |r| == |s.nodeName|
  {
    seq(|s.nodeName|, i requires 0 <= i < |s.nodeName| => Lower(PyAt(s.strings, s.nodeName[i])))
  }

  /** Geometry divided by the device pixel ratio (exact division; float rounding is not modelled). */
  function Normalise(r: Rect, dpr: real): Rect
    requires dpr != 0.0
  {
    Rect(r.x / dpr, r.y / dpr, r.width / dpr, r.height / dpr)
  }

  /**
   * Partly visible: strictly left of the right edge and strictly above the
   * lower edge, but reaching at least to the left and upper edges.
   */
  predicate InViewport(box: Rect, win: Window) {
    && box.x < win.left + win.width
    && box.x + box.width >= win.left
    && box.y < win.upper + win.height
    && box.y + box.height >= win.upper
  }

  /**
   * The edges: a box ending exactly on the window's left or upper edge
   * still counts, one starting exactly on its right or lower edge does not.
   */
  lemma ViewportEdges(win: Window, w: real, h: real)
    requires w >= 0.0 && h >= 0.0 && win.width > 0.0 && win.height > 0.0
    ensures InViewport(Rect(win.left - w, win.upper - h, w, h), win)
    ensures !InViewport(Rect(win.left + win.width, win.upper, w, h), win)
    ensures !InViewport(Rect(win.left, win.upper + win.height, w, h), win)
  {
  }

  lemma DivLess(x: real, y: real, d: real)
    requires d > 0.0
    ensures x / d < y <==> x < y * d
    ensures x / d >= y <==> x >= y * d
  {
    assert x / d * d == x;
    if x / d < y {
      assert x / d * d < y * d;
    }
    if x < y * d {
      assert (x / d) * d < y * d;
    }
  }

  /**
   * Dividing the box by the pixel ratio and testing it against the window
   * is testing the raw box against the window scaled by that ratio.
   */
  lemma ViewportScale(b: Rect, win: Window, dpr: real)
    requires dpr > 0.0
    ensures InViewport(Normalise(b, dpr), win)
            <==> InViewport(b, Window(win.left * dpr, win.upper * dpr, win.width * dpr, win.height * dpr))
  {
    assert b.x / dpr + b.width / dpr == (b.x + b.width) / dpr;
    assert b.y / dpr + b.height / dpr == (b.y + b.height) / dpr;
    DivLess(b.x, win.left + win.width, dpr);
    DivLess(b.x + b.width, win.left, dpr);
    DivLess(b.y, win.upper + win.height, dpr);
    DivLess(b.y + b.height, win.upper, dpr);
    assert (win.left + win.width) * dpr == win.left * dpr + win.width * dpr;
    assert (win.upper + win.height) * dpr == win.upper * dpr + win.height * dpr;
  }

  /** Python's `int()` on a number: truncation toward zero. */
  function Trunc(r: real): (t: int)
    ensures r >= 0.0 ==> t as real <= r < t as real + 1.0
    ensures r < 0.0 ==> t as real - 1.0 < r <= t as real
  {
    if r >= 0.0 then r.Floor else -((-r).Floor)
  }
}
