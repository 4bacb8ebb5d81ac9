/**
 * The ancestry resolver, `add_to_hash_tree`: for one tracked tag, a memo
 * table from node index to whether the node is, or sits under, a node with
 * that tag, and which such node is its root.
 */
module Ancestry {
  import opened Wrappers

  /**
   * A table entry. The source stores a pair `(flag, root)`; only
   * `(False, None)` and `(True, root)` are ever built, so those are the two
   * cases here.
   */
  datatype Entry = Outside | Inside(root: int)

  /** The derivation rule: a node with the tag is its own root, otherwise it inherits a flagged parent's root. */
  function Derive(tag: string, nodeId: int, nodeName: string, parentEntry: Entry): Entry
  {
    if nodeName == tag then Inside(nodeId)
    else if parentEntry.Inside? then Inside(parentEntry.root)
    else Outside
  }

  /** The memo dict one `add_to_hash_tree` call reads and writes. */
  class HashTree {
    var entries: map<int, Entry>

    /** The seeded table `{"-1": (False, None)}`. */
    constructor ()
      ensures entries == map[-1 := Outside]
    {
      entries := map[-1 := Outside];
    }

    /**
     * `add_to_hash_tree` for a node whose parent is already in the table.
     * The source's branch for a missing parent is not modelled: its
     * recursive call passes too few arguments, and in document order every
     * parent is entered before its children.
     */
    method Add(tag: string, nodeId: int, nodeName: string, parentId: int) returns (value: Entry)
      requires parentId in entries
      modifies this
      ensures value == Derive(tag, nodeId, nodeName, old(entries)[parentId])
      ensures entries == old(entries)[nodeId := value]
    {
      var parentEntry := entries[parentId];
      if nodeName == tag {
        value := Inside(nodeId);
      } else if parentEntry.Inside? {
        value := Inside(parentEntry.root);
      } else {
        value := Outside;
      }
      entries := entries[nodeId := value];
    }
  }

  /** Document order: every node's parent comes before it (-1 is the synthetic root). */
  predicate ParentsBefore(parent: seq<int>) {
    forall i :: 0 <= i < |parent| ==> -1 <= parent[i] < i
  }

  /** `m` is `n` itself or one of its ancestors. */
  predicate AncestorOrSelf(parent: seq<int>, m: int, n: int)
    requires ParentsBefore(parent) && n < |parent|
    decreases n + 1
  {
    0 <= n && (m == n || AncestorOrSelf(parent, m, parent[n]))
  }

  lemma {:induction false} AncestorIsEarlier(parent: seq<int>, m: int, n: int)
    requires ParentsBefore(parent) && n < |parent|
    requires AncestorOrSelf(parent, m, n)
    ensures 0 <= m <= n
    decreases n + 1
  {
    if m != n {
      AncestorIsEarlier(parent, m, parent[n]);
    }
  }

  /** Reference definition: walk up from `n` and stop at the first node named `tag`. */
  function NearestTagged(names: seq<string>, parent: seq<int>, tag: string, n: int): Option<int>
    requires |names| == |parent| && ParentsBefore(parent) && -1 <= n < |parent|
    decreases n + 1
  {
    if n < 0 then None
    else if names[n] == tag then Some(n)
    else NearestTagged(names, parent, tag, parent[n])
  }

  function EntryOf(r: Option<int>): Entry {
    if r.Some? then Inside(r.value) else Outside
  }

  /**
   * The recorded root is the nearest tagged self-or-ancestor: it carries the
   * tag, it is on `n`'s ancestor chain, and no tagged node lies between it
   * and `n` (nested tags start a new root). With no tagged node on the chain
   * there is no root.
   */
  lemma {:induction false} NearestTaggedIsNearest(names: seq<string>, parent: seq<int>, tag: string, n: int)
    requires |names| == |parent| && ParentsBefore(parent) && -1 <= n < |parent|
    ensures var r := NearestTagged(names, parent, tag, n);
            && (r.Some? ==> 0 <= r.value <= n && names[r.value] == tag && AncestorOrSelf(parent, r.value, n))
            && (r.Some? ==> forall m :: 0 <= m < |names| && AncestorOrSelf(parent, m, n) && m > r.value ==> names[m] != tag)
            && (r.None? ==> forall m :: 0 <= m < |names| && AncestorOrSelf(parent, m, n) ==> names[m] != tag)
    decreases n + 1
  {
    if n >= 0 {
      if names[n] == tag {
        forall m | AncestorOrSelf(parent, m, n) ensures m <= n {
          AncestorIsEarlier(parent, m, n);
        }
      } else {
        NearestTaggedIsNearest(names, parent, tag, parent[n]);
      }
    }
  }

  /** One `Derive` step from the parent's reference entry gives the node's reference entry. */
  lemma DeriveIsNearest(names: seq<string>, parent: seq<int>, tag: string, i: int)
    requires |names| == |parent| && ParentsBefore(parent) && 0 <= i < |parent|
    ensures Derive(tag, i, names[i], EntryOf(NearestTagged(names, parent, tag, parent[i])))
            == EntryOf(NearestTagged(names, parent, tag, i))
  {
  }

  /** The table after the nodes before `n` have been entered, in document order. */
  function TableUpTo(names: seq<string>, parent: seq<int>, tag: string, n: int): map<int, Entry>
    requires |names| == |parent| && ParentsBefore(parent) && 0 <= n <= |parent|
  {
    map m | -1 <= m < n :: EntryOf(NearestTagged(names, parent, tag, m))
  }

  /** Entering node `i` from its parent's entry extends the table from `i` nodes to `i + 1`. */
  lemma TableStep(names: seq<string>, parent: seq<int>, tag: string, i: int)
    requires |names| == |parent| && ParentsBefore(parent) && 0 <= i < |parent|
    ensures parent[i] in TableUpTo(names, parent, tag, i)
    ensures var t := TableUpTo(names, parent, tag, i);
            && t[i := Derive(tag, i, names[i], t[parent[i]])] == TableUpTo(names, parent, tag, i + 1)
            && Derive(tag, i, names[i], t[parent[i]]) == EntryOf(NearestTagged(names, parent, tag, i))
  {
    DeriveIsNearest(names, parent, tag, i);
  }
}
