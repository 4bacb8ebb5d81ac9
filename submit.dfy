/**
 * Submit inputs and their typed value. A crawl renames `input type=submit`
 * to `button` (crawler.py:268-271) before it looks up the node's input value,
 * and that lookup asks for the name `input` (crawler.py:292-300). So the
 * value of a submit input is never read. Without other attributes, such an
 * element is then dropped by the keep rule. This module states that outcome
 * for the model as written, and proves that a lookup under the node's
 * original name would keep the element.
 */
module SubmitInputs {
  import opened Wrappers
  import opened PyText
  import opened Roles
  import opened Attributes
  import opened Ancestry
  import opened Snapshots
  import opened Compaction

  /** Node `i` is an `input` whose `type` attribute is `submit`. */
  predicate SubmitInput(snap: Snapshot, i: nat)
    requires WellFormed(snap) && i < |snap.nodeName|
  {
    Names(snap)[i] == "input" && Get(NodeAttributes(snap, i), "type") == Some("submit")
  }

  /** As written: an admitted submit input without a node value becomes a `button` with no value. */
  lemma SubmitValueUnread(snap: Snapshot, win: Window, dpr: real, i: nat)
    requires WellFormed(snap) && i < |snap.nodeName| && dpr != 0.0
    requires Admitted(snap, win, dpr, i) && SubmitInput(snap, i) && snap.nodeValue[i] < 0
    ensures ElementFor(snap, win, dpr, i).nodeName == "button"
    ensures ElementFor(snap, win, dpr, i).nodeValue == None
  {
  }

  /**
   * As written: such an element outside any anchor or button, with no
   * attribute besides `type` and no routed children, is dropped whatever
   * its input value is.
   */
  lemma SubmitInputDropped(snap: Snapshot, win: Window, dpr: real, i: nat, child: map<int, seq<Fragment>>)
    requires WellFormed(snap) && i < |snap.nodeName| && dpr != 0.0
    requires Admitted(snap, win, dpr, i) && SubmitInput(snap, i) && snap.nodeValue[i] < 0
    requires !InsideTagged(snap, i) && FinalAttrs(snap, i) == [] && i !in child
    ensures !Keep(Compact(ElementFor(snap, win, dpr, i), child))
  {
    var e := ElementFor(snap, win, dpr, i);
    SubmitValueUnread(snap, win, dpr, i);
    assert e.nodeMeta == [] && ChildrenOf(e, child) == [];
  }

  /** The element with its value looked up under the name the node had before the rename. */
  function IntendedElementFor(snap: Snapshot, win: Window, dpr: real, i: nat): Element
    requires WellFormed(snap) && i < |snap.nodeName| && dpr != 0.0
    requires Admitted(snap, win, dpr, i)
  {
    ElementFor(snap, win, dpr, i).(nodeValue := OwnValue(snap, i, Names(snap)[i]))
  }

  /** Text with a non-space character stays non-blank when more text follows it. */
  lemma NotAllSpacePrefix(v: string, rest: string)
    requires !AllSpace(v)
    ensures !AllSpace(v + rest)
  {
    var k :| 0 <= k < |v| && !IsSpace(v[k]);
    assert (v + rest)[k] == v[k];
  }

  /**
   * Corrected: with the lookup under the original name, a submit input whose
   * input value is not blank gets that value, and the keep rule keeps it
   * whatever its attributes and children.
   */
  lemma IntendedSubmitKept(snap: Snapshot, win: Window, dpr: real, i: nat, child: map<int, seq<Fragment>>, v: string)
    requires WellFormed(snap) && i < |snap.nodeName| && dpr != 0.0
    requires Admitted(snap, win, dpr, i) && SubmitInput(snap, i) && snap.nodeValue[i] < 0
    requires InputText(snap, i) == Some(v) && !AllSpace(v)
    ensures IntendedElementFor(snap, win, dpr, i).nodeValue == Some(v)
    ensures Compact(IntendedElementFor(snap, win, dpr, i), child).text != ""
    ensures Keep(Compact(IntendedElementFor(snap, win, dpr, i), child))
  {
    var e := IntendedElementFor(snap, win, dpr, i);
    var raw := ValueText(e.nodeValue) + TextOf(ChildrenOf(e, child));
    assert v != "";
    assert raw == v + (" " + TextOf(ChildrenOf(e, child)));
    NotAllSpacePrefix(v, " " + TextOf(ChildrenOf(e, child)));
    StripEmpty(raw);
    StripStripEmpty(raw);
  }

  // ---- The one-node page that shows the difference ----

  /** A page holding one laid-out `<input type=submit>` whose input value is `Go`. */
  const Example: Snapshot := Snapshot(
    ["input", "type", "submit", "Go"],
    [0], [-1], [[1, 2]], [-1], [7], {},
    [0], [3],
    [0], [Rect(10.0, 10.0, 50.0, 20.0)])

  const Screen: Window := Window(0.0, 0.0, 1280.0, 1080.0)

  lemma ExampleWellFormed()
    ensures WellFormed(Example)
  {
    assert [1, 2][2..] == [];
  }

  lemma ExampleNames()
    ensures WellFormed(Example) && Names(Example) == ["input"]
  {
    ExampleWellFormed();
    assert Lower("input") == "input";
    assert Names(Example)[0] == "input";
  }

  lemma ExampleAttributes()
    ensures WellFormed(Example)
    ensures NodeAttributes(Example, 0) == [("type", "submit")]
  {
    ExampleWellFormed();
    assert [1, 2][2..] == [];
    assert PyAt(Example.strings, 1) == "type";
    assert RemoveFirst(AttributeKeys, "type") == AttributeKeys[1..];
  }

  lemma ExampleSubmit()
    ensures WellFormed(Example)
    ensures SubmitInput(Example, 0) && FinalAttrs(Example, 0) == []
  {
    ExampleNames();
    ExampleAttributes();
    assert Get([("type", "submit")], "type") == Some("submit") by {
      assert Keys([("type", "submit")]) == ["type"];
    }
    assert Pop([("type", "submit")], "type") == [] by {
      assert Keys([("type", "submit")]) == ["type"];
    }
  }

  lemma ExampleAdmitted()
    ensures WellFormed(Example)
    ensures !InsideTagged(Example, 0) && Admitted(Example, Screen, 1.0, 0)
    ensures InputText(Example, 0) == Some("Go")
  {
    ExampleNames();
    assert NearestTagged(Names(Example), Example.parentIndex, "a", 0) == None;
    assert NearestTagged(Names(Example), Example.parentIndex, "button", 0) == None;
    assert IndexOf(Example.layoutNodeIndex, 0) == Some(0);
    assert IndexOf(Example.inputValueIndex, 0) == Some(0);
    assert "input" !in Blacklist;
    assert Normalise(Example.bounds[0], 1.0) == Example.bounds[0];
  }

  /** Pass 1 over the example page collects the submit input and routes nothing to it. */
  lemma ExamplePass1()
    ensures WellFormed(Example) && Admitted(Example, Screen, 1.0, 0)
    ensures var p := Pass1(Example, Screen, 1.0, 1);
            p.inView == [ElementFor(Example, Screen, 1.0, 0)] && 0 !in p.childNodes
  {
    ExampleAdmitted();
    ExampleNames();
    var e := ElementFor(Example, Screen, 1.0, 0);
    Pass1InView(Example, Screen, 1.0, 1);
    assert Slots(Example, Screen, 1.0, 1) == [Some(e)];
    assert Present([Some(e)]) == Present([Some(e)][..0]) + [e];
    Pass1Children(Example, Screen, 1.0, 1);
  }

  /** A viewport list of one element the keep rule drops renders no line. */
  lemma LoneDropped(e: Element, child: map<int, seq<Fragment>>)
    requires !Keep(Compact(e, child))
    ensures Lines(Kept([e], child)) == []
  {
    assert CompactAll([e], child) == [Compact(e, child)];
    assert KeptOf([Compact(e, child)]) == KeptOf([Compact(e, child)][..0]) + [];
  }

  /** As written, a crawl of the example page renders no line at all. */
  lemma ExampleCrawl()
    ensures WellFormed(Example)
    ensures var p := Pass1(Example, Screen, 1.0, 1);
            Lines(Kept(p.inView, p.childNodes)) == []
  {
    ExampleSubmit();
    ExamplePass1();
    var p := Pass1(Example, Screen, 1.0, 1);
    var e := ElementFor(Example, Screen, 1.0, 0);
    SubmitInputDropped(Example, Screen, 1.0, 0, p.childNodes);
    LoneDropped(e, p.childNodes);
  }

  /** Corrected, the example's submit input carries `Go` and is kept. */
  lemma ExampleIntended()
    ensures WellFormed(Example) && Admitted(Example, Screen, 1.0, 0)
    ensures var e := IntendedElementFor(Example, Screen, 1.0, 0);
            e.nodeValue == Some("Go") && Keep(Compact(e, map[]))
  {
    ExampleSubmit();
    ExampleAdmitted();
    assert !AllSpace("Go") by { assert !IsSpace("Go"[0]); }
    IntendedSubmitKept(Example, Screen, 1.0, 0, map[], "Go");
  }
}
