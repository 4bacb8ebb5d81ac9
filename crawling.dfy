/**
 * The crawler itself: the two loops of a crawl written as the step-by-step
 * code they are, each proved against the specification functions of the
 * compaction engine, and the page element buffer the crawl fills.
 */
module Crawling {
  import opened Wrappers
  import opened PyText
  import opened Roles
  import opened Attributes
  import opened Ancestry
  import opened Snapshots
  import opened Compaction

  /**
   * The body of the first loop for node `i`, given its anchor and button
   * ancestry entries, up to the viewport test; `return` stands where the
   * loop says `continue`.
   */
  method VisitNode(snap: Snapshot, win: Window, dpr: real, i: nat, a: Entry, b: Entry,
                   childNodes: map<int, seq<Fragment>>, inView: seq<Element>)
    returns (childNodes': map<int, seq<Fragment>>, inView': seq<Element>)
    requires WellFormed(snap) && i < |snap.nodeName| && dpr != 0.0
    requires a == AnchorEntry(snap, i) && b == ButtonEntry(snap, i)
    requires Pass1State(childNodes, inView) == Pass1(snap, win, dpr, i)
    ensures Pass1State(childNodes', inView') == Pass1(snap, win, dpr, i + 1)
  {
    childNodes', inView' := childNodes, inView;
    var nodeName := Lower(PyAt(snap.strings, snap.nodeName[i]));
    assert nodeName == Names(snap)[i];
    var cursor := IndexOf(snap.layoutNodeIndex, i);
    if cursor.None? {
      return;
    }
    if nodeName in Blacklist {
      return;
    }
    var box := Normalise(snap.bounds[cursor.value], dpr);
    if !InViewport(box, win) {
      return;
    }
    childNodes', inView' := PlaceNode(snap, i, box, a, b, childNodes, inView);
  }

  /** The rest of the loop body: attributes, routing into `child_nodes`, renaming, and the element itself. */
  method PlaceNode(snap: Snapshot, i: nat, box: Rect, a: Entry, b: Entry,
                   childNodes: map<int, seq<Fragment>>, inView: seq<Element>)
    returns (childNodes': map<int, seq<Fragment>>, inView': seq<Element>)
    requires WellFormed(snap) && i < |snap.nodeName|
    ensures Pass1State(childNodes', inView') == Place(snap, i, box, a, b, Pass1State(childNodes, inView))
  {
    childNodes', inView' := childNodes, inView;
    var nodeName := Lower(PyAt(snap.strings, snap.nodeName[i]));
    assert nodeName == Names(snap)[i];
    var metaData: seq<string> := [];
    RefsValidScanDefined(snap.attributes[i], AttributeKeys, snap.strings);
    var attrs := FindAttributes(snap.attributes[i], AttributeKeys, snap.strings);
    var exception := a.Inside? || b.Inside?;
    var key := if a.Inside? then a.root else if b.Inside? then b.root else -1;
    if exception {
      childNodes' := SetDefault(childNodes', key);
    }
    if nodeName == "#text" && exception {
      var text := PyAt(snap.strings, snap.nodeValue[i]);
      if text == "|" || text == "\U{2022}" {
        return;
      }
      childNodes' := childNodes'[key := childNodes'[key] + [TextFragment(text)]];
    } else {
      if (nodeName == "input" && Get(attrs, "type") == Some("submit")) || nodeName == "button" {
        nodeName := "button";
        attrs := Pop(attrs, "type");
      }
      childNodes', metaData := SpreadAttributes(attrs, exception, key, childNodes');
    }
    inView' := FinishNode(snap, i, nodeName, metaData, box, exception, inView);
  }

  /** The node's own value, the separator and redundancy drops, and the append to `elements_in_view_port`. */
  method FinishNode(snap: Snapshot, i: nat, nodeName: string, metaData: seq<string>, box: Rect, exception: bool,
                    inView: seq<Element>) returns (inView': seq<Element>)
    requires WellFormed(snap) && i < |snap.nodeName|
    ensures inView' == Finish(snap, i, nodeName, metaData, box, exception, inView)
  {
    inView' := inView;
    var value: Option<string> := None;
    if snap.nodeValue[i] >= 0 {
      value := Some(snap.strings[snap.nodeValue[i]]);
      if value.value == "|" {
        return;
      }
    } else if nodeName == "input" && i in snap.inputValueIndex {
      var slot := IndexOf(snap.inputValueIndex, i).value;
      var textIndex := snap.inputValueValue[slot];
      if textIndex >= 0 {
        value := Some(snap.strings[textIndex]);
      }
    }
    if exception && nodeName != "a" && nodeName != "button" {
      return;
    }
    inView' := inView' + [Element(i, snap.backendNodeId[i], nodeName, value, metaData, i in snap.clickable,
                                  Trunc(box.x), Trunc(box.y), Trunc(box.x + box.width / 2.0), Trunc(box.y + box.height / 2.0))];
  }

  /**
   * The loop over a node's found attributes: under an anchor or button
   * they become attribute fragments of its key, otherwise the node's own
   * meta values.
   */
  method SpreadAttributes(attrs: Dict, exception: bool, key: int, childNodes: map<int, seq<Fragment>>)
    returns (childNodes': map<int, seq<Fragment>>, metaData: seq<string>)
    requires exception ==> key in childNodes
    ensures exception ==> childNodes' == childNodes[key := childNodes[key] + AttrFragments(attrs)] && metaData == []
    ensures !exception ==> childNodes' == childNodes && metaData == Values(attrs)
  {
    childNodes', metaData := childNodes, [];
    if exception {
      assert childNodes[key] + [] == childNodes[key];
      assert childNodes[key := childNodes[key] + AttrFragments(attrs[..0])] == childNodes;
    }
    var j := 0;
    while j < |attrs|
      invariant 0 <= j <= |attrs|
      invariant exception ==> childNodes' == childNodes[key := childNodes[key] + AttrFragments(attrs[..j])] && metaData == []
      invariant !exception ==> childNodes' == childNodes && metaData == Values(attrs[..j])
    {
      assert attrs[..j + 1] == attrs[..j] + [attrs[j]];
      assert AttrFragments(attrs[..j + 1]) == AttrFragments(attrs[..j]) + [AttributeFragment(attrs[j].0, attrs[j].1)];
      if exception {
        ghost var before := childNodes[key] + AttrFragments(attrs[..j]);
        assert before + [AttributeFragment(attrs[j].0, attrs[j].1)] == childNodes[key] + AttrFragments(attrs[..j + 1]);
        childNodes' := childNodes'[key := childNodes'[key] + [AttributeFragment(attrs[j].0, attrs[j].1)]];
      } else {
        metaData := metaData + [attrs[j].1];
      }
      j := j + 1;
    }
    assert attrs[..j] == attrs;
  }

  /**
   * The two `add_to_hash_tree` calls at the top of the first loop: node
   * `i` entered into the anchor table and the button table.
   */
  method EnterNode(names: seq<string>, parent: seq<int>, i: int, anchors: HashTree, buttons: HashTree)
    returns (a: Entry, b: Entry)
    requires |names| == |parent| && ParentsBefore(parent) && 0 <= i < |parent| && anchors != buttons
    requires anchors.entries == TableUpTo(names, parent, "a", i)
    requires buttons.entries == TableUpTo(names, parent, "button", i)
    modifies anchors, buttons
    ensures anchors.entries == TableUpTo(names, parent, "a", i + 1)
    ensures buttons.entries == TableUpTo(names, parent, "button", i + 1)
    ensures a == EntryOf(NearestTagged(names, parent, "a", i)) && b == EntryOf(NearestTagged(names, parent, "button", i))
  {
    TableStep(names, parent, "a", i);
    TableStep(names, parent, "button", i);
    a := anchors.Add("a", i, names[i], parent[i]);
    b := buttons.Add("button", i, names[i], parent[i]);
  }

  /**
   * The first loop of a crawl: both ancestry tables filled node by node,
   * and `child_nodes` and `elements_in_view_port` built as pass 1 says.
   */
  method CollectViewport(snap: Snapshot, win: Window, dpr: real)
    returns (childNodes: map<int, seq<Fragment>>, inView: seq<Element>, anchors: HashTree, buttons: HashTree)
    requires WellFormed(snap) && dpr != 0.0
    ensures Pass1State(childNodes, inView) == Pass1(snap, win, dpr, |snap.nodeName|)
    ensures fresh(anchors) && anchors.entries == TableUpTo(Names(snap), snap.parentIndex, "a", |snap.nodeName|)
    ensures fresh(buttons) && buttons.entries == TableUpTo(Names(snap), snap.parentIndex, "button", |snap.nodeName|)
  {
    var names := Names(snap);
    anchors := new HashTree();
    buttons := new HashTree();
    assert anchors.entries == TableUpTo(names, snap.parentIndex, "a", 0);
    assert buttons.entries == TableUpTo(names, snap.parentIndex, "button", 0);
    childNodes, inView := map[], [];
    var i := 0;
    while i < |snap.nodeName|
      invariant 0 <= i <= |snap.nodeName|
      invariant anchors.entries == TableUpTo(names, snap.parentIndex, "a", i)
      invariant buttons.entries == TableUpTo(names, snap.parentIndex, "button", i)
      invariant Pass1State(childNodes, inView) == Pass1(snap, win, dpr, i)
    {
      var a, b := EnterNode(names, snap.parentIndex, i, anchors, buttons);
      childNodes, inView := VisitNode(snap, win, dpr, i, a, b, childNodes, inView);
      i := i + 1;
    }
  }

  lemma AppendAssoc<T>(a: seq<T>, b: seq<T>, c: seq<T>)
    ensures a + b + c == a + (b + c)
  {
  }

  lemma MergeStep(frags: seq<Fragment>, j: nat)
    requires j < |frags|
    ensures TextOf(frags[..j + 1]) == TextOf(frags[..j]) + (if frags[j].TextFragment? then frags[j].text + " " else "")
    ensures AttrsOf(frags[..j + 1])
            == AttrsOf(frags[..j]) + (if frags[j].AttributeFragment? then [frags[j].key + "=\"" + frags[j].value + "\""] else [])
  {
    assert frags[..j + 1][..j] == frags[..j];
  }

  /**
   * The merge of one element with the fragments its descendants left
   * under its index: the text, and the meta list grown by the attributes.
   */
  method MergeChildren(e: Element, childNodes: map<int, seq<Fragment>>) returns (innerText: string, metaData: seq<string>)
    ensures innerText == ValueText(e.nodeValue) + TextOf(ChildrenOf(e, childNodes))
    ensures metaData == e.nodeMeta + AttrsOf(ChildrenOf(e, childNodes))
  {
    innerText := if e.nodeValue.Some? && e.nodeValue.value != "" then e.nodeValue.value + " " else "";
    metaData := e.nodeMeta;
    if e.nodeIndex in childNodes {
      var frags := childNodes[e.nodeIndex];
      var j := 0;
      while j < |frags|
        invariant 0 <= j <= |frags|
        invariant innerText == ValueText(e.nodeValue) + TextOf(frags[..j])
        invariant metaData == e.nodeMeta + AttrsOf(frags[..j])
      {
        MergeStep(frags, j);
        match frags[j] {
          case AttributeFragment(k, v) =>
            AppendAssoc(e.nodeMeta, AttrsOf(frags[..j]), [k + "=\"" + v + "\""]);
            assert TextOf(frags[..j]) + "" == TextOf(frags[..j]);
            metaData := metaData + [k + "=\"" + v + "\""];
          case TextFragment(t) =>
            AppendAssoc(ValueText(e.nodeValue), TextOf(frags[..j]), t + " ");
            assert AttrsOf(frags[..j]) + [] == AttrsOf(frags[..j]);
            innerText := innerText + (t + " ");
        }
        j := j + 1;
      }
      assert frags[..j] == frags;
    }
  }

  /**
   * The body of the second loop for one viewport element: the merge with
   * its children, the keep test, and, when kept, its line under id `id`
   * and the element as the buffer stores it.
   */
  method CompactNode(element: Element, childNodes: map<int, seq<Fragment>>, id: nat)
    returns (keep: bool, line: string, stored: Element)
    ensures keep == Keep(Compact(element, childNodes))
    ensures keep ==> line == RenderLine(Compact(element, childNodes), id) && stored == Compact(element, childNodes).element
  {
    var innerText, metaData := MergeChildren(element, childNodes);
    var meta := "";
    if |metaData| > 0 {
      meta := " " + Join(metaData);
    }
    if innerText != "" {
      innerText := Strip(innerText);
    }
    var role := ConvertName(element.nodeName, element.isClickable);
    assert Compact(element, childNodes) == Compacted(role, innerText, meta, element.(nodeMeta := metaData));
    line, stored := "", element;
    if ((role != Button || meta == "") && role != Link && role != Input && role != Img
        && role.Name() != "textarea") && Strip(innerText) == "" {
      return false, line, stored;
    }
    keep := true;
    stored := element.(nodeMeta := metaData);
    var name := role.Name();
    if innerText != "" {
      line := "<" + name + " id=" + NatToString(id) + meta + ">" + innerText + "</" + name + ">";
    } else {
      line := "<" + name + " id=" + NatToString(id) + meta + "/>";
    }
  }

  /** Writing one entry after merging is merging the written entry. */
  lemma MergeThenUpdate(m: map<int, Element>, n: map<int, Element>, k: int, v: Element)
    ensures (m + n)[k := v] == m + n[k := v]
  {
  }

  /** The crawler's state that outlives a crawl: the page element buffer. */
  class Crawler {
    var pageElementBuffer: map<int, Element>

    /** A crawler on a freshly opened page, whose buffer is empty. */
    constructor ()
      ensures pageElementBuffer == map[]
    {
      pageElementBuffer := map[];
    }

    /** Navigation starts over with an empty buffer. */
    method GoToPage()
      modifies this
      ensures pageElementBuffer == map[]
    {
      pageElementBuffer := map[];
    }

    /** Where a click on element `id` lands: its centre, or nowhere when the buffer has no such id. */
    function ClickTarget(id: int): (r: Option<(int, int)>)
      reads this
      ensures r.Some? <==> id in pageElementBuffer
      ensures r.Some? ==> r.value == (pageElementBuffer[id].centerX, pageElementBuffer[id].centerY)
    {
      if id in pageElementBuffer then Some((pageElementBuffer[id].centerX, pageElementBuffer[id].centerY)) else None
    }

    /**
     * After a crawl wrote `kept` over the buffer `before`, line `j` carries id
     * `j` and clicking id `j` lands on the centre of the element that line
     * describes; every other id is looked up in `before`.
     */
    lemma ClickAfterCrawl(before: map<int, Element>, inView: seq<Element>, child: map<int, seq<Fragment>>)
      requires pageElementBuffer == before + BufferOf(Kept(inView, child))
      ensures var kept := Kept(inView, child);
              && |Lines(kept)| == |kept|
              && (forall j :: 0 <= j < |kept| ==>
                    && LineId(Lines(kept)[j], kept[j].role) == j
                    && ClickTarget(j) == Some((kept[j].element.centerX, kept[j].element.centerY)))
              && (forall id :: !(0 <= id < |kept|) ==>
                    ClickTarget(id) == if id in before then Some((before[id].centerX, before[id].centerY)) else None)
    {
      LinesCarryIds(inView, child);
      BufferWrites(before, Kept(inView, child));
    }

    /**
     * One crawl of a captured snapshot: pass 1, then the merge, the keep
     * rule and serialisation, writing each kept element into the buffer
     * under the id its line carries.
     */
    method Crawl(snap: Snapshot, win: Window, dpr: real) returns (lines: seq<string>)
      requires WellFormed(snap) && dpr != 0.0
      modifies this
      ensures var p := Pass1(snap, win, dpr, |snap.nodeName|);
              var kept := Kept(p.inView, p.childNodes);
              && lines == Lines(kept)
              && pageElementBuffer == old(pageElementBuffer) + BufferOf(kept)
              && |lines| == |kept|
              && forall j :: 0 <= j < |lines| ==>
                   LineId(lines[j], kept[j].role) == j
                   && ClickTarget(j) == Some((kept[j].element.centerX, kept[j].element.centerY))
    {
      var childNodes, inView, _, _ := CollectViewport(snap, win, dpr);
      lines := Serialise(inView, childNodes);
      ClickAfterCrawl(old(pageElementBuffer), inView, childNodes);
    }

    /**
     * The second loop of a crawl: each viewport element merged, tested,
     * and if kept written into the buffer under the next id and rendered.
     */
    method Serialise(inView: seq<Element>, childNodes: map<int, seq<Fragment>>) returns (lines: seq<string>)
      modifies this
      ensures lines == Lines(Kept(inView, childNodes))
      ensures pageElementBuffer == old(pageElementBuffer) + BufferOf(Kept(inView, childNodes))
    {
      lines := [];
      var idCounter := 0;
      var k := 0;
      while k < |inView|
        invariant 0 <= k <= |inView|
        invariant idCounter == |Kept(inView[..k], childNodes)|
        invariant lines == Lines(Kept(inView[..k], childNodes))
        invariant pageElementBuffer == old(pageElementBuffer) + BufferOf(Kept(inView[..k], childNodes))
      {
        var keep, line, element := CompactNode(inView[k], childNodes, idCounter);
        KeptGrows(inView, childNodes, k);
        if keep {
          MergeThenUpdate(old(pageElementBuffer), BufferOf(Kept(inView[..k], childNodes)), idCounter, element);
          pageElementBuffer := pageElementBuffer[idCounter := element];
          lines := lines + [line];
          idCounter := idCounter + 1;
        }
        k := k + 1;
      }
      assert inView[..k] == inView;
    }
  }
}
