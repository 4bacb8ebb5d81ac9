/**
 * The compaction engine as specification functions: pass 1 (blacklist,
 * layout, viewport, routing of descendants into their anchor or button)
 * and pass 2 (merging, classification, the keep rule and serialisation).
 */
module Compaction {
  import opened Wrappers
  import opened PyText
  import opened Roles
  import opened Attributes
  import opened Ancestry
  import opened Snapshots

  /** A descendant's contribution to its anchor or button: `{"type": "type", ...}` or `{"type": "attribute", ...}`. */
  datatype Fragment = TextFragment(text: string) | AttributeFragment(key: string, value: string)

  /** An entry of `elements_in_view_port` (and of the page element buffer). */
  datatype Element = Element(
    nodeIndex: int,
    backendNodeId: int,
    nodeName: string,
    nodeValue: Option<string>,
    nodeMeta: seq<string>,
    isClickable: bool,
    originX: int,
    originY: int,
    centerX: int,
    centerY: int)

  /** `child_nodes` and `elements_in_view_port` as pass 1 builds them. */
  datatype Pass1State = Pass1State(childNodes: map<int, seq<Fragment>>, inView: seq<Element>)

  /** Text that is only a separator glyph. */
  const Separators: set<string> := {"|", "\U{2022}"}

  /** `find_attributes(attributes[i], [...], strings)` for node `i`. */
  function NodeAttributes(snap: Snapshot, i: nat): Dict
    requires WellFormed(snap) && i < |snap.nodeName|
  {
    RefsValidScanDefined(snap.attributes[i], AttributeKeys, snap.strings);
    Scan(snap.attributes[i], AttributeKeys, snap.strings, [])
  }

  /** `child_nodes.setdefault(key, [])`. */
  function SetDefault(child: map<int, seq<Fragment>>, key: int): (r: map<int, seq<Fragment>>)
    ensures key in r && r.Keys == child.Keys + {key}
    ensures forall k :: k in child ==> r[k] == child[k]
    ensures key !in child ==> r[key] == []
  {
    if key in child then child else child[key := []]
  }

  function AttrFragments(d: Dict): (r: seq<Fragment>)
    ensures |r| == |d| && forall j :: 0 <= j < |d| ==> r[j] == AttributeFragment(d[j].0, d[j].1)
  {
    seq(|d|, j requires 0 <= j < |d| => AttributeFragment(d[j].0, d[j].1))
  }

  /** A submit input, or a button, is renamed `button` (and then loses its `type` attribute). */
  predicate IsRenamed(name: string, attrs: Dict) {
    (name == "input" && Get(attrs, "type") == Some("submit")) || name == "button"
  }

  /** The input-value side table entry of node `i`, if it has a usable one. */
  function InputText(snap: Snapshot, i: nat): Option<string>
    requires WellFormed(snap)
  {
    match IndexOf(snap.inputValueIndex, i)
    case None => None
    case Some(j) => if snap.inputValueValue[j] >= 0 then Some(snap.strings[snap.inputValueValue[j]]) else None
  }

  /** The node's own text: its value, or for an `input` its side-table entry. */
  function OwnValue(snap: Snapshot, i: nat, name: string): Option<string>
    requires WellFormed(snap) && i < |snap.nodeName|
  {
    if snap.nodeValue[i] >= 0 then Some(snap.strings[snap.nodeValue[i]])
    else if name == "input" then InputText(snap, i)
    else None
  }

  function MakeElement(snap: Snapshot, i: nat, name: string, meta: seq<string>, box: Rect): Element
    requires WellFormed(snap) && i < |snap.nodeName|
  {
    Element(i, snap.backendNodeId[i], name, OwnValue(snap, i, name), meta, i in snap.clickable,
            Trunc(box.x), Trunc(box.y), Trunc(box.x + box.width / 2.0), Trunc(box.y + box.height / 2.0))
  }

  /** The tail of the loop body: drop `|`-valued nodes and redundant descendants, else record the element. */
  function Finish(snap: Snapshot, i: nat, name: string, meta: seq<string>, box: Rect, exception: bool,
                  inView: seq<Element>): seq<Element>
    requires WellFormed(snap) && i < |snap.nodeName|
  {
    if snap.nodeValue[i] >= 0 && snap.strings[snap.nodeValue[i]] == "|" then inView
    else if exception && name != "a" && name != "button" then inView
    else inView + [MakeElement(snap, i, name, meta, box)]
  }

  /** One iteration of the first loop, for node `i` with anchor entry `a` and button entry `b`. */
  function Visit(snap: Snapshot, win: Window, dpr: real, i: nat, a: Entry, b: Entry, st: Pass1State): Pass1State
    requires WellFormed(snap) && i < |snap.nodeName| && dpr != 0.0
  {
    match IndexOf(snap.layoutNodeIndex, i)
    case None => st
    case Some(cursor) =>
      if Names(snap)[i] in Blacklist then st
      else
        var box := Normalise(snap.bounds[cursor], dpr);
        if !InViewport(box, win) then st
        else Place(snap, i, box, a, b, st)
  }

  /** The rest of the iteration, for a laid-out, non-blacklisted node in the viewport. */
  function Place(snap: Snapshot, i: nat, box: Rect, a: Entry, b: Entry, st: Pass1State): Pass1State
    requires WellFormed(snap) && i < |snap.nodeName|
  {
    var name := Names(snap)[i];
    var attrs := NodeAttributes(snap, i);
    var exception := a.Inside? || b.Inside?;
    var key := KeyOf(a, b);
    var child := if exception then SetDefault(st.childNodes, key) else st.childNodes;
    if name == "#text" && exception then
      var text := PyAt(snap.strings, snap.nodeValue[i]);
      if text in Separators then Pass1State(child, st.inView)
      else Pass1State(child[key := child[key] + [TextFragment(text)]], Finish(snap, i, name, [], box, exception, st.inView))
    else
      var renamed := IsRenamed(name, attrs);
      var finalName := if renamed then "button" else name;
      var finalAttrs := if renamed then Pop(attrs, "type") else attrs;
      if exception then
        Pass1State(child[key := child[key] + AttrFragments(finalAttrs)], Finish(snap, i, finalName, [], box, exception, st.inView))
      else
        Pass1State(child, Finish(snap, i, finalName, Values(finalAttrs), box, exception, st.inView))
  }

  function AnchorEntry(snap: Snapshot, i: int): Entry
    requires WellFormed(snap) && -1 <= i < |snap.nodeName|
  {
    EntryOf(NearestTagged(Names(snap), snap.parentIndex, "a", i))
  }

  function ButtonEntry(snap: Snapshot, i: int): Entry
    requires WellFormed(snap) && -1 <= i < |snap.nodeName|
  {
    EntryOf(NearestTagged(Names(snap), snap.parentIndex, "button", i))
  }

  /** Pass 1 over the first `n` nodes in document order. */
  function Pass1(snap: Snapshot, win: Window, dpr: real, n: nat): Pass1State
    requires WellFormed(snap) && n <= |snap.nodeName| && dpr != 0.0
  {
    if n == 0 then Pass1State(map[], [])
    else Visit(snap, win, dpr, n - 1, AnchorEntry(snap, n - 1), ButtonEntry(snap, n - 1), Pass1(snap, win, dpr, n - 1))
  }

  // ---- Pass 1, restated node by node ----

  /** The node is an anchor or button, or sits under one. */
  predicate InsideTagged(snap: Snapshot, i: nat)
    requires WellFormed(snap) && i < |snap.nodeName|
  {
    AnchorEntry(snap, i).Inside? || ButtonEntry(snap, i).Inside?
  }

  function FinalName(snap: Snapshot, i: nat): string
    requires WellFormed(snap) && i < |snap.nodeName|
  {
    if IsRenamed(Names(snap)[i], NodeAttributes(snap, i)) then "button" else Names(snap)[i]
  }

  function FinalAttrs(snap: Snapshot, i: nat): Dict
    requires WellFormed(snap) && i < |snap.nodeName|
  {
    if IsRenamed(Names(snap)[i], NodeAttributes(snap, i)) then Pop(NodeAttributes(snap, i), "type")
    else NodeAttributes(snap, i)
  }

  /**
   * The conditions under which node `i` becomes an entry of
   * `elements_in_view_port`, stated all at once.
   */
  predicate Admitted(snap: Snapshot, win: Window, dpr: real, i: nat)
    requires WellFormed(snap) && i < |snap.nodeName| && dpr != 0.0
  {
    var slot := IndexOf(snap.layoutNodeIndex, i);
    && slot.Some?
    && Names(snap)[i] !in Blacklist
    && InViewport(Normalise(snap.bounds[slot.value], dpr), win)
    && !(snap.nodeValue[i] >= 0 && snap.strings[snap.nodeValue[i]] == "|")
    && (!InsideTagged(snap, i) || FinalName(snap, i) == "a" || FinalName(snap, i) == "button")
  }

  /** The entry an admitted node gets: descendants of an anchor or button keep no attributes of their own. */
  function ElementFor(snap: Snapshot, win: Window, dpr: real, i: nat): Element
    requires WellFormed(snap) && i < |snap.nodeName| && dpr != 0.0
    requires Admitted(snap, win, dpr, i)
  {
    var box := Normalise(snap.bounds[IndexOf(snap.layoutNodeIndex, i).value], dpr);
    MakeElement(snap, i, FinalName(snap, i), if InsideTagged(snap, i) then [] else Values(FinalAttrs(snap, i)), box)
  }

  /** What `elements_in_view_port` gains at node `i`: its entry when admitted, else nothing. */
  function Slot(snap: Snapshot, win: Window, dpr: real, i: nat): (r: Option<Element>)
    requires WellFormed(snap) && i < |snap.nodeName| && dpr != 0.0
    ensures r.Some? <==> Admitted(snap, win, dpr, i)
    ensures r.Some? ==> r.value.nodeIndex == i
  {
    if Admitted(snap, win, dpr, i) then Some(ElementFor(snap, win, dpr, i)) else None
  }

  /** The slots of the first `n` nodes. */
  function Slots(snap: Snapshot, win: Window, dpr: real, n: nat): (r: seq<Option<Element>>)
    requires WellFormed(snap) && n <= |snap.nodeName| && dpr != 0.0
    ensures |r| == n && forall i :: 0 <= i < n ==> r[i] == Slot(snap, win, dpr, i)
  {
    seq(n, i requires 0 <= i < n => Slot(snap, win, dpr, i))
  }

  /** The present entries of a slot list, in order. */
  function Present(s: seq<Option<Element>>): seq<Element>
    decreases |s|
  {
    if s == [] then []
    else Present(s[..|s| - 1]) + (if s[|s| - 1].Some? then [s[|s| - 1].value] else [])
  }

  /** Slot `i`, when present, is the entry of node `i`. */
  predicate IndexedSlots(s: seq<Option<Element>>) {
    forall i :: 0 <= i < |s| && s[i].Some? ==> s[i].value.nodeIndex == i
  }

  lemma IndexedSlotsPrefix(s: seq<Option<Element>>)
    requires IndexedSlots(s) && s != []
    ensures IndexedSlots(s[..|s| - 1])
  {
    var init := s[..|s| - 1];
    forall i | 0 <= i < |init| && init[i].Some? ensures init[i].value.nodeIndex == i {
      assert init[i] == s[i];
    }
  }

  /** Each present entry is the value of the slot of its own node. */
  lemma {:induction false} PresentSound(s: seq<Option<Element>>)
    requires IndexedSlots(s)
    ensures forall j :: 0 <= j < |Present(s)| ==> 0 <= Present(s)[j].nodeIndex < |s| && s[Present(s)[j].nodeIndex] == Some(Present(s)[j])
    decreases |s|
  {
    if s != [] {
      var n := |s|;
      var init := s[..n - 1];
      IndexedSlotsPrefix(s);
      PresentSound(init);
      var u, v := Present(init), Present(s);
      assert v == u + (if s[n - 1].Some? then [s[n - 1].value] else []);
      forall j | 0 <= j < |v| ensures 0 <= v[j].nodeIndex < n && s[v[j].nodeIndex] == Some(v[j]) {
        if j < |u| {
          assert v[j] == u[j];
          assert s[u[j].nodeIndex] == init[u[j].nodeIndex];
        }
      }
    }
  }

  /** The present entries appear in strictly increasing node order. */
  lemma {:induction false} PresentOrdered(s: seq<Option<Element>>)
    requires IndexedSlots(s)
    ensures forall j, k :: 0 <= j < k < |Present(s)| ==> Present(s)[j].nodeIndex < Present(s)[k].nodeIndex
    decreases |s|
  {
    if s != [] {
      var n := |s|;
      var init := s[..n - 1];
      IndexedSlotsPrefix(s);
      PresentOrdered(init);
      PresentSound(init);
      var u, v := Present(init), Present(s);
      assert v == u + (if s[n - 1].Some? then [s[n - 1].value] else []);
      forall j, k | 0 <= j < k < |v| ensures v[j].nodeIndex < v[k].nodeIndex {
        assert v[j] == u[j];
        if k < |u| {
          assert v[k] == u[k];
        } else {
          assert v[k] == s[n - 1].value;
          assert u[j].nodeIndex < n - 1;
        }
      }
    }
  }

  /** Some entry of `v` is the entry of node `i`. */
  predicate Appears(v: seq<Element>, i: int) {
    exists j :: 0 <= j < |v| && v[j].nodeIndex == i
  }

  /** Every present slot shows up among the present entries. */
  lemma {:induction false} PresentComplete(s: seq<Option<Element>>)
    requires IndexedSlots(s)
    ensures forall i :: 0 <= i < |s| && s[i].Some? ==> Appears(Present(s), i)
    decreases |s|
  {
    if s != [] {
      var n := |s|;
      var init := s[..n - 1];
      IndexedSlotsPrefix(s);
      PresentComplete(init);
      var u, v := Present(init), Present(s);
      assert v == u + (if s[n - 1].Some? then [s[n - 1].value] else []);
      forall i | 0 <= i < n && s[i].Some? ensures Appears(v, i) {
        if i < n - 1 {
          assert init[i] == s[i];
          var j :| 0 <= j < |u| && u[j].nodeIndex == i;
          assert v[j] == u[j];
        } else {
          assert v[|u|].nodeIndex == i;
        }
      }
    }
  }


  lemma VisitInView(snap: Snapshot, win: Window, dpr: real, i: nat, st: Pass1State)
    requires WellFormed(snap) && i < |snap.nodeName| && dpr != 0.0
    ensures var s := Slot(snap, win, dpr, i);
            Visit(snap, win, dpr, i, AnchorEntry(snap, i), ButtonEntry(snap, i), st).inView
            == st.inView + (if s.Some? then [s.value] else [])
  {
  }

  /** Pass 1 builds `elements_in_view_port` as exactly the admitted nodes' entries, in document order. */
  lemma {:induction false} Pass1InView(snap: Snapshot, win: Window, dpr: real, n: nat)
    requires WellFormed(snap) && n <= |snap.nodeName| && dpr != 0.0
    ensures Pass1(snap, win, dpr, n).inView == Present(Slots(snap, win, dpr, n))
  {
    if n > 0 {
      Pass1InView(snap, win, dpr, n - 1);
      VisitInView(snap, win, dpr, n - 1, Pass1(snap, win, dpr, n - 1));
      PresentSlotsStep(snap, win, dpr, n);
    }
  }

  lemma PresentSlotsStep(snap: Snapshot, win: Window, dpr: real, n: nat)
    requires WellFormed(snap) && 0 < n <= |snap.nodeName| && dpr != 0.0
    ensures var s := Slot(snap, win, dpr, n - 1);
            Present(Slots(snap, win, dpr, n)) == Present(Slots(snap, win, dpr, n - 1)) + (if s.Some? then [s.value] else [])
  {
    assert Slots(snap, win, dpr, n)[..n - 1] == Slots(snap, win, dpr, n - 1);
  }

  /**
   * `elements_in_view_port` holds each admitted node once, in increasing
   * node order, as `ElementFor` builds it, and nothing else.
   */
  lemma Pass1Members(snap: Snapshot, win: Window, dpr: real, n: nat)
    requires WellFormed(snap) && n <= |snap.nodeName| && dpr != 0.0
    ensures var v := Pass1(snap, win, dpr, n).inView;
            && (forall j, k :: 0 <= j < k < |v| ==> v[j].nodeIndex < v[k].nodeIndex)
            && (forall j :: 0 <= j < |v| ==> 0 <= v[j].nodeIndex < n && Slot(snap, win, dpr, v[j].nodeIndex) == Some(v[j]))
            && (forall i :: 0 <= i < n && Admitted(snap, win, dpr, i) ==> Appears(v, i))
  {
    var s := Slots(snap, win, dpr, n);
    Pass1InView(snap, win, dpr, n);
    PresentOrdered(s);
    PresentSound(s);
    PresentComplete(s);
    var v := Pass1(snap, win, dpr, n).inView;
    forall i | 0 <= i < n && Admitted(snap, win, dpr, i) ensures Appears(v, i) {
      assert s[i].Some?;
    }
  }

  /** No fragment is separator text. */
  predicate NoSeparatorText(frags: seq<Fragment>) {
    forall f :: f in frags && f.TextFragment? ==> f.text !in Separators
  }

  /** Keys are anchor or button nodes among the first `n`, and no fragment is separator text. */
  predicate ChildrenOk(snap: Snapshot, n: nat, c: map<int, seq<Fragment>>)
    requires WellFormed(snap) && n <= |snap.nodeName|
  {
    forall k :: k in c ==> 0 <= k < n && (Names(snap)[k] == "a" || Names(snap)[k] == "button") && NoSeparatorText(c[k])
  }

  /** Node `i` passes the layout, blacklist and viewport filters and lies inside an anchor or button. */
  predicate Routed(snap: Snapshot, win: Window, dpr: real, i: nat)
    requires WellFormed(snap) && i < |snap.nodeName| && dpr != 0.0
  {
    var slot := IndexOf(snap.layoutNodeIndex, i);
    && slot.Some?
    && Names(snap)[i] !in Blacklist
    && InViewport(Normalise(snap.bounds[slot.value], dpr), win)
    && InsideTagged(snap, i)
  }

  /** The `child_nodes` key a routed node reports to: its anchor if any, else its button. */
  function RouteKey(snap: Snapshot, i: nat): int
    requires WellFormed(snap) && i < |snap.nodeName|
  {
    KeyOf(AnchorEntry(snap, i), ButtonEntry(snap, i))
  }

  /** What a routed node adds to its key: its text (unless a separator), or its attributes. */
  function Contribution(snap: Snapshot, i: nat): seq<Fragment>
    requires WellFormed(snap) && i < |snap.nodeName|
  {
    if Names(snap)[i] == "#text" then
      var text := PyAt(snap.strings, snap.nodeValue[i]);
      if text in Separators then [] else [TextFragment(text)]
    else AttrFragments(FinalAttrs(snap, i))
  }

  function Appended(child: map<int, seq<Fragment>>, key: int, frags: seq<Fragment>): map<int, seq<Fragment>> {
    var c := SetDefault(child, key);
    c[key := c[key] + frags]
  }

  /** The key a node under entries `a` and `b` reports to. */
  function KeyOf(a: Entry, b: Entry): int {
    if a.Inside? then a.root else if b.Inside? then b.root else -1
  }

  lemma PlaceChildren(snap: Snapshot, i: nat, box: Rect, a: Entry, b: Entry, st: Pass1State)
    requires WellFormed(snap) && i < |snap.nodeName|
    ensures Place(snap, i, box, a, b, st).childNodes
            == if a.Inside? || b.Inside? then Appended(st.childNodes, KeyOf(a, b), Contribution(snap, i))
               else st.childNodes
  {
    if (a.Inside? || b.Inside?) && Names(snap)[i] == "#text" {
      var key := KeyOf(a, b);
      var c := SetDefault(st.childNodes, key);
      assert c[key] + [] == c[key];
      assert c[key := c[key] + []] == c;
    }
  }

  lemma VisitChildren(snap: Snapshot, win: Window, dpr: real, i: nat, st: Pass1State)
    requires WellFormed(snap) && i < |snap.nodeName| && dpr != 0.0
    ensures Visit(snap, win, dpr, i, AnchorEntry(snap, i), ButtonEntry(snap, i), st).childNodes
            == if Routed(snap, win, dpr, i) then Appended(st.childNodes, RouteKey(snap, i), Contribution(snap, i))
               else st.childNodes
  {
    var a, b := AnchorEntry(snap, i), ButtonEntry(snap, i);
    var slot := IndexOf(snap.layoutNodeIndex, i);
    if slot.Some? && Names(snap)[i] !in Blacklist && InViewport(Normalise(snap.bounds[slot.value], dpr), win) {
      PlaceChildren(snap, i, Normalise(snap.bounds[slot.value], dpr), a, b, st);
    }
  }

  lemma RouteKeyTagged(snap: Snapshot, i: nat)
    requires WellFormed(snap) && i < |snap.nodeName|
    requires InsideTagged(snap, i)
    ensures 0 <= RouteKey(snap, i) <= i
    ensures Names(snap)[RouteKey(snap, i)] == "a" || Names(snap)[RouteKey(snap, i)] == "button"
  {
    NearestTaggedIsNearest(Names(snap), snap.parentIndex, "a", i);
    NearestTaggedIsNearest(Names(snap), snap.parentIndex, "button", i);
  }

  lemma ContributionNoSeparator(snap: Snapshot, i: nat)
    requires WellFormed(snap) && i < |snap.nodeName|
    ensures NoSeparatorText(Contribution(snap, i))
  {
  }

  lemma VisitKeepsChildrenOk(snap: Snapshot, win: Window, dpr: real, i: nat, st: Pass1State)
    requires WellFormed(snap) && i < |snap.nodeName| && dpr != 0.0
    requires ChildrenOk(snap, i, st.childNodes)
    ensures ChildrenOk(snap, i + 1, Visit(snap, win, dpr, i, AnchorEntry(snap, i), ButtonEntry(snap, i), st).childNodes)
  {
    VisitChildren(snap, win, dpr, i, st);
    if Routed(snap, win, dpr, i) {
      var key := RouteKey(snap, i);
      RouteKeyTagged(snap, i);
      ContributionNoSeparator(snap, i);
      var names := Names(snap);
      var prev := SetDefault(st.childNodes, key);
      var c := Appended(st.childNodes, key, Contribution(snap, i));
      assert NoSeparatorText(prev[key]);
      forall k | k in c ensures 0 <= k < i + 1 && (names[k] == "a" || names[k] == "button") && NoSeparatorText(c[k]) {
        if k != key { assert k in st.childNodes && c[k] == st.childNodes[k]; }
      }
    }
  }

  /**
   * `child_nodes` is keyed only by anchor and button nodes, and no
   * fragment in it is separator text.
   */
  lemma {:induction false} Pass1Children(snap: Snapshot, win: Window, dpr: real, n: nat)
    requires WellFormed(snap) && n <= |snap.nodeName| && dpr != 0.0
    ensures ChildrenOk(snap, n, Pass1(snap, win, dpr, n).childNodes)
  {
    if n > 0 {
      Pass1Children(snap, win, dpr, n - 1);
      Pass1ChildrenStep(snap, win, dpr, n - 1);
    }
  }

  lemma Pass1ChildrenStep(snap: Snapshot, win: Window, dpr: real, i: nat)
    requires WellFormed(snap) && i < |snap.nodeName| && dpr != 0.0
    requires ChildrenOk(snap, i, Pass1(snap, win, dpr, i).childNodes)
    ensures ChildrenOk(snap, i + 1, Pass1(snap, win, dpr, i + 1).childNodes)
  {
    VisitKeepsChildrenOk(snap, win, dpr, i, Pass1(snap, win, dpr, i));
  }

  /** Renaming drops the `type` attribute and keeps every other one. */
  lemma RenamedLosesType(snap: Snapshot, i: nat)
    requires WellFormed(snap) && i < |snap.nodeName|
    requires IsRenamed(Names(snap)[i], NodeAttributes(snap, i))
    ensures FinalName(snap, i) == "button"
    ensures IsDict(FinalAttrs(snap, i)) && "type" !in Keys(FinalAttrs(snap, i))
    ensures forall p :: p in NodeAttributes(snap, i) && p.0 != "type" ==> p in FinalAttrs(snap, i)
    ensures forall p :: p in FinalAttrs(snap, i) ==> p in NodeAttributes(snap, i)
  {
    AttributeKeysDistinct();
    FindAttributesMeaning(snap.attributes[i], AttributeKeys, snap.strings);
    PopRemoves(NodeAttributes(snap, i), "type");
  }

  // ---- Pass 2 ----

  /** One finished output unit: role, merged text and meta, and the element as the buffer keeps it. */
  datatype Compacted = Compacted(role: Role, text: string, meta: string, element: Element)

  function ChildrenOf(e: Element, child: map<int, seq<Fragment>>): seq<Fragment> {
    if e.nodeIndex in child then child[e.nodeIndex] else []
  }

  /** The text fragments, each followed by one space. */
  function TextOf(frags: seq<Fragment>): string
    decreases |frags|
  {
    if frags == [] then ""
    else
      var last := frags[|frags| - 1];
      TextOf(frags[..|frags| - 1]) + (if last.TextFragment? then last.text + " " else "")
  }

  /** The attribute fragments, each as `key="value"`. */
  function AttrsOf(frags: seq<Fragment>): seq<string>
    decreases |frags|
  {
    if frags == [] then []
    else
      var last := frags[|frags| - 1];
      AttrsOf(frags[..|frags| - 1]) + (if last.AttributeFragment? then [last.key + "=\"" + last.value + "\""] else [])
  }

  /** `f"{node_value} " if node_value else ""`. */
  function ValueText(v: Option<string>): string {
    if v.Some? && v.value != "" then v.value + " " else ""
  }

  function MetaString(metaData: seq<string>): string {
    if |metaData| > 0 then " " + Join(metaData) else ""
  }

  /** The merge of one element with its children, before the keep rule. */
  function Compact(e: Element, child: map<int, seq<Fragment>>): Compacted {
    var frags := ChildrenOf(e, child);
    var raw := ValueText(e.nodeValue) + TextOf(frags);
    var metaData := e.nodeMeta + AttrsOf(frags);
    Compacted(ConvertName(e.nodeName, e.isClickable), if raw != "" then Strip(raw) else "",
              MetaString(metaData), e.(nodeMeta := metaData))
  }

  /** The keep/drop test as the source writes it (the `textarea` comparison can never fire). */
  predicate Keep(c: Compacted) {
    !(((c.role != Button || c.meta == "") && c.role != Link && c.role != Input && c.role != Img
       && c.role.Name() != "textarea") && Strip(c.text) == "")
  }

  /** Every viewport element merged with its children, in order. */
  function CompactAll(inView: seq<Element>, child: map<int, seq<Fragment>>): (r: seq<Compacted>)
    ensures |r| == |inView| && forall j :: 0 <= j < |inView| ==> r[j] == Compact(inView[j], child)
  {
    seq(|inView|, j requires 0 <= j < |inView| => Compact(inView[j], child))
  }

  /** The merged elements that pass the keep rule, in order. */
  function KeptOf(cs: seq<Compacted>): seq<Compacted>
    decreases |cs|
  {
    if cs == [] then [] else KeptOf(cs[..|cs| - 1]) + (if Keep(cs[|cs| - 1]) then [cs[|cs| - 1]] else [])
  }

  /** The kept elements of `inView`, in order. */
  function Kept(inView: seq<Element>, child: map<int, seq<Fragment>>): seq<Compacted> {
    KeptOf(CompactAll(inView, child))
  }

  /** `<role id=N meta>text</role>`, or `<role id=N meta/>` without text. */
  function RenderLine(c: Compacted, id: nat): string {
    var name := c.role.Name();
    if c.text != "" then "<" + name + " id=" + NatToString(id) + c.meta + ">" + c.text + "</" + name + ">"
    else "<" + name + " id=" + NatToString(id) + c.meta + "/>"
  }

  function Lines(kept: seq<Compacted>): seq<string>
    decreases |kept|
  {
    if kept == [] then [] else Lines(kept[..|kept| - 1]) + [RenderLine(kept[|kept| - 1], |kept| - 1)]
  }

  /** The buffer entries a crawl writes: id `j` for the `j`-th kept element. */
  function BufferOf(kept: seq<Compacted>): map<int, Element> {
    map j | 0 <= j < |kept| :: kept[j].element
  }

  /** Writing a crawl's entries over a buffer: ids `0..|kept|-1` are replaced, every other entry stays. */
  lemma BufferWrites(buffer: map<int, Element>, kept: seq<Compacted>)
    ensures var after := buffer + BufferOf(kept);
            && (forall id :: 0 <= id < |kept| ==> id in after && after[id] == kept[id].element)
            && (forall id :: id in after <==> id in buffer || 0 <= id < |kept|)
            && (forall id :: id in buffer && !(0 <= id < |kept|) ==> after[id] == buffer[id])
  {
  }

  /**
   * The keep rule, simplified: kept iff the merged text has a non-space
   * character, or the role is link, input or img, or it is a button with
   * some meta.
   */
  lemma KeepRule(e: Element, child: map<int, seq<Fragment>>)
    ensures var c := Compact(e, child);
            var raw := ValueText(e.nodeValue) + TextOf(ChildrenOf(e, child));
            && (c.text == "" <==> AllSpace(raw))
            && (Keep(c) <==> c.text != "" || c.role in {Link, Input, Img} || (c.role == Button && c.meta != ""))
  {
    var raw := ValueText(e.nodeValue) + TextOf(ChildrenOf(e, child));
    StripEmpty(raw);
    StripStripEmpty(raw);
  }

  /** The kept list is the filter of the merged elements by the keep rule, order preserved. */
  lemma {:induction false} KeptOfIsFilter(cs: seq<Compacted>)
    ensures |KeptOf(cs)| <= |cs|
    ensures forall c :: c in KeptOf(cs) ==> c in cs && Keep(c)
    ensures forall c :: c in cs && Keep(c) ==> c in KeptOf(cs)
    decreases |cs|
  {
    if cs != [] {
      var init := cs[..|cs| - 1];
      var last := cs[|cs| - 1];
      KeptOfIsFilter(init);
      assert cs == init + [last];
      assert KeptOf(cs) == KeptOf(init) + (if Keep(last) then [last] else []);
    }
  }

  /** Each viewport element's merge is kept exactly when it passes the keep rule. */
  lemma KeptIsFilter(inView: seq<Element>, child: map<int, seq<Fragment>>)
    ensures |Kept(inView, child)| <= |inView|
    ensures forall c :: c in Kept(inView, child) ==> Keep(c) && exists j :: 0 <= j < |inView| && c == Compact(inView[j], child)
    ensures forall j :: 0 <= j < |inView| && Keep(Compact(inView[j], child)) ==> Compact(inView[j], child) in Kept(inView, child)
  {
    var cs := CompactAll(inView, child);
    KeptOfIsFilter(cs);
    forall c | c in Kept(inView, child) ensures exists j :: 0 <= j < |inView| && c == Compact(inView[j], child) {
      var j :| 0 <= j < |cs| && cs[j] == c;
    }
    forall j | 0 <= j < |inView| && Keep(Compact(inView[j], child)) ensures Compact(inView[j], child) in Kept(inView, child) {
      assert cs[j] in cs;
    }
  }

  /** One line per kept element, line `j` carrying id `j`. */
  lemma {:induction false} LinesAt(kept: seq<Compacted>)
    ensures |Lines(kept)| == |kept|
    ensures forall j :: 0 <= j < |kept| ==> Lines(kept)[j] == RenderLine(kept[j], j)
    decreases |kept|
  {
    if kept != [] {
      var init := kept[..|kept| - 1];
      LinesAt(init);
      assert Lines(kept) == Lines(init) + [RenderLine(kept[|kept| - 1], |kept| - 1)];
      forall j | 0 <= j < |kept| ensures Lines(kept)[j] == RenderLine(kept[j], j) {
        if j < |kept| - 1 { assert kept[j] == init[j]; }
      }
    }
  }

  /** Extending the viewport prefix by one element extends the kept list by that element's merge, if kept. */
  lemma KeptStep(inView: seq<Element>, child: map<int, seq<Fragment>>, k: nat)
    requires k < |inView|
    ensures var c := Compact(inView[k], child);
            Kept(inView[..k + 1], child) == Kept(inView[..k], child) + (if Keep(c) then [c] else [])
  {
    var cs := CompactAll(inView[..k + 1], child);
    CompactAllPrefix(inView, child, k);
    assert cs[..k] == CompactAll(inView[..k], child);
  }

  lemma CompactAllPrefix(inView: seq<Element>, child: map<int, seq<Fragment>>, k: nat)
    requires k < |inView|
    ensures CompactAll(inView[..k + 1], child)[..k] == CompactAll(inView[..k], child)
    ensures CompactAll(inView[..k + 1], child)[k] == Compact(inView[k], child)
  {
    var a, b := CompactAll(inView[..k + 1], child), CompactAll(inView[..k], child);
    forall j | 0 <= j < k ensures a[j] == b[j] {
      assert inView[..k + 1][j] == inView[..k][j];
    }
  }

  lemma LinesSnoc(kept: seq<Compacted>, c: Compacted)
    ensures Lines(kept + [c]) == Lines(kept) + [RenderLine(c, |kept|)]
  {
    assert (kept + [c])[..|kept|] == kept;
  }

  lemma BufferSnoc(kept: seq<Compacted>, c: Compacted)
    ensures BufferOf(kept + [c]) == BufferOf(kept)[|kept| := c.element]
  {
  }

  /** What one more viewport element does to the kept list, the lines and the buffer entries. */
  lemma KeptGrows(inView: seq<Element>, child: map<int, seq<Fragment>>, k: nat)
    requires k < |inView|
    ensures var before := Kept(inView[..k], child);
            var c := Compact(inView[k], child);
            var after := Kept(inView[..k + 1], child);
            && (!Keep(c) ==> after == before)
            && (Keep(c) ==> && after == before + [c]
                            && Lines(after) == Lines(before) + [RenderLine(c, |before|)]
                            && BufferOf(after) == BufferOf(before)[|before| := c.element])
  {
    KeptStep(inView, child, k);
    var before := Kept(inView[..k], child);
    var c := Compact(inView[k], child);
    LinesSnoc(before, c);
    BufferSnoc(before, c);
  }

  /** The digits at the start of `s`. */
  function LeadingDigits(s: string): string
    decreases |s|
  {
    if |s| > 0 && '0' <= s[0] <= '9' then [s[0]] + LeadingDigits(s[1..]) else ""
  }

  /** The id a reader of an output line sees: the digits after `<role id=`. */
  function LineId(line: string, role: Role): nat {
    var prefix := "<" + role.Name() + " id=";
    if |prefix| <= |line| then ParseNat(LeadingDigits(line[|prefix|..])) else 0
  }

  lemma {:induction false} LeadingDigitsOf(digits: string, rest: string)
    requires forall i :: 0 <= i < |digits| ==> '0' <= digits[i] <= '9'
    requires rest == [] || !('0' <= rest[0] <= '9')
    ensures LeadingDigits(digits + rest) == digits
    decreases |digits|
  {
    if digits != [] {
      assert (digits + rest)[1..] == digits[1..] + rest;
      LeadingDigitsOf(digits[1..], rest);
    }
  }

  /** The meta string is empty or starts with a space, so it never runs into the id's digits. */
  lemma MetaStringStart(metaData: seq<string>)
    ensures MetaString(metaData) == "" || MetaString(metaData)[0] == ' '
  {
  }

  /** What follows the id in a rendered line. */
  function LineRest(c: Compacted): string {
    if c.text != "" then c.meta + ">" + c.text + "</" + c.role.Name() + ">" else c.meta + "/>"
  }

  lemma RenderLineSplit(c: Compacted, id: nat)
    ensures RenderLine(c, id) == ("<" + c.role.Name() + " id=") + NatToString(id) + LineRest(c)
  {
  }

  lemma DropPrefix(p: string, d: string, r: string)
    ensures (p + d + r)[|p|..] == d + r
  {
  }

  /** Reading the id back out of a rendered line gives the id it was rendered with. */
  lemma LineIdRoundTrip(c: Compacted, id: nat)
    requires c.meta == "" || c.meta[0] == ' '
    ensures LineId(RenderLine(c, id), c.role) == id
  {
    RenderLineSplit(c, id);
    DropPrefix("<" + c.role.Name() + " id=", NatToString(id), LineRest(c));
    LeadingDigitsOf(NatToString(id), LineRest(c));
    ParseNatToString(id);
  }

  /**
   * Line `j` of a crawl carries id `j` and describes the `j`-th kept
   * element, which is what the buffer holds under `j`.
   */
  lemma LinesCarryIds(inView: seq<Element>, child: map<int, seq<Fragment>>)
    ensures var kept := Kept(inView, child);
            && |Lines(kept)| == |kept|
            && (forall j :: 0 <= j < |kept| ==>
                  && Lines(kept)[j] == RenderLine(kept[j], j)
                  && LineId(Lines(kept)[j], kept[j].role) == j
                  && BufferOf(kept)[j] == kept[j].element)
  {
    var kept := Kept(inView, child);
    LinesAt(kept);
    KeptIsFilter(inView, child);
    forall j | 0 <= j < |kept| ensures LineId(Lines(kept)[j], kept[j].role) == j {
      assert kept[j] in kept;
      var i :| 0 <= i < |inView| && kept[j] == Compact(inView[i], child);
      var e := inView[i];
      MetaStringStart(e.nodeMeta + AttrsOf(ChildrenOf(e, child)));
      LineIdRoundTrip(kept[j], j);
    }
  }
}
