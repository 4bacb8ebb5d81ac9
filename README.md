# natbot crawler: a Dafny model of the page compaction

natbot drives a browser for a language model. Its crawler (`crawler.py`) takes a
DOM snapshot of the current page. It shrinks that snapshot to a short list of lines
such as `<link id=3>Sign in</link>`. It also remembers, in a page element buffer,
which element each id stands for, so that a later `click` can hit that element's
centre.

This project models that compaction and proves what it promises:

- `Roles`: `convert_name`, the five-way classification in priority order.
- `Attributes`: `find_attributes`, as a loop over key/value index pairs.
  - It skips pairs whose value index is negative.
  - It keeps only the requested keys, taking each key's first occurrence.
  - It stops once every key has been found.
  - Python dictionaries are ordered association lists, so `get`, `pop` and
    insertion order behave as in the source.
- `Ancestry`: `add_to_hash_tree`, as a class whose method updates its table.
  - The specification functions say which ancestor is recorded as the "root" of
    a node: the nearest ancestor-or-self carrying the tag.
- `Snapshots`: the captured snapshot, the tag blacklist, the
  device-pixel-ratio normalisation, the viewport test with its exact edges, and
  `int()` truncation.
- `Compaction`: both passes of `Crawler.crawl` as specification functions.
  - Pass 1 filters nodes by layout, blacklist and viewport, and routes the text
    and attributes of anchor and button descendants to that anchor or button.
  - Pass 2 merges those contributions, classifies each element, applies the
    keep rule, numbers the kept elements `0..n-1` and renders one line each.
- `Crawling`: the imperative crawl.
  - The first loop fills two `HashTree` objects and the `child_nodes` /
    `elements_in_view_port` collections.
  - The second loop writes each kept element into the `Crawler` object's
    `pageElementBuffer` and appends its line.
  - Each method is proved equal to the specification function above it, and
    the properties are proved as lemmas about those functions.
- `SubmitInputs`: what happens to an `input type=submit`, as written and with
  its value looked up under its original name (see "## Findings").
- `PyText`: the Python string and sequence operations the crawler relies on.
  - Negative indexing, `list.index`, ASCII `lower`, and `strip` over Python's
    whitespace set.
  - `" ".join`, and decimal rendering of ids, proved to round-trip.

Two points of the code decide how the model reads:

- A node carrying the tag is its own root, even inside another node with that
  tag (`crawler.py:56-58`). So every node's root is its nearest tagged
  ancestor-or-self, not the topmost one. `Ancestry.NearestTaggedIsNearest`
  proves it.
- When a parent has no entry yet, the code re-enters `add_to_hash_tree`
  (`crawler.py:46-52`) with five of its eight arguments. That call would raise a
  `TypeError`.
  - In a snapshot whose parents come before their children it never runs.
  - The model therefore requires `parentId in entries` of `HashTree.Add`.
  - Snapshots must satisfy `parent[i] < i` (`Snapshots.WellFormed`).

## Model

| member | source | states |
|---|---|---|
| Roles.Role.Name | crawler.py:10-22 | every role renders as one of the five names `link`, `input`, `img`, `button`, `text`, never `textarea` |
| Roles.ConvertName | crawler.py:10-22 | link iff the name is `a`; input iff `input`; img iff `img`; button iff none of those and the name is `button` or the node has a click handler; text iff none of the above, in that priority |
| Snapshots.Names | crawler.py:196-198 | there is exactly one lower-cased name per node |
| Snapshots.AttributeKeysDistinct | crawler.py:242-244 | the requested attribute keys are pairwise distinct, so the key list shrinks by one per hit |
| Snapshots.ViewportEdges | crawler.py:224-234 | a box whose right edge equals the window's left edge (or lower edge equals its top edge) is admitted; one starting exactly at the window's right or lower edge is not |
| Snapshots.ViewportScale | crawler.py:218-234 | testing the box divided by the pixel ratio equals testing the raw box against the window scaled by that ratio |
| Snapshots.Trunc | crawler.py:314-317 | `int()` truncates toward zero: within one unit of the value, never past it away from zero |
| PyText.IndexOf | crawler.py:209-213 | `list.index`: absent exactly when the value is not in the list, otherwise the first position holding it |
| PyText.IndexOfUnique | crawler.py:209-213 | a position holding the value with no earlier occurrence is the one found |
| PyText.Lower | crawler.py:198 | lower-casing keeps the length |
| PyText.StripLeftShape | crawler.py:355 | stripping the front is empty iff the text is all whitespace, and otherwise starts with a non-space |
| PyText.StripRightShape | crawler.py:355 | stripping the back is empty iff the text is all whitespace, and otherwise keeps the first character |
| PyText.StripEmpty | crawler.py:354-356 | `strip()` yields `""` iff the text is all whitespace |
| PyText.StripStripEmpty | crawler.py:355-366 | the keep rule's second `strip()` is empty iff the first one is |
| PyText.NatToString | crawler.py:373 | an id renders as a non-empty run of decimal digits |
| PyText.ParseNatToString | crawler.py:373 | reading the rendered digits back gives the id |
| Attributes.Get | crawler.py:269 | `dict.get`: absent iff the key is missing, otherwise a value stored under it |
| Attributes.GetAt | crawler.py:269 | in a dictionary, looking up the key stored at a position gives that position's value |
| Attributes.Put | crawler.py:35 | assignment appends a new key at the end and keeps the length for an existing key, adding no other pair |
| Attributes.PutGet | crawler.py:35 | after assignment the dictionary still has distinct keys, holds the new value under the key, and answers every other key as before |
| Attributes.Pop | crawler.py:272-274 | `pop(k, None)` leaves a dictionary without `k` unchanged and never adds a pair |
| Attributes.PopRemoves | crawler.py:272-274 | after `pop` the key is gone, the keys stay distinct, and every other pair survives |
| Attributes.RemoveFirst | crawler.py:36 | `list.remove` drops one element; on a distinct list exactly the removed key disappears |
| Attributes.FindAttributes | crawler.py:25-41 | the loop returns what the scan of the pair list defines, including the early return once the key list empties |
| Attributes.RefsValidScanDefined | crawler.py:28-32 | with all string references in range, every step of the scan is defined |
| Attributes.ScanKeys | crawler.py:34-35 | the result has distinct keys, each one requested |
| Attributes.ScanFirstOccurrence | crawler.py:28-39 | each requested key maps to the value of its first pair with a non-negative value index, or is absent; later pairs never overwrite it |
| Attributes.FindAttributesMeaning | crawler.py:25-41 | from an empty dictionary: only requested keys, each with its first non-negative occurrence |
| Attributes.AllKeysFound | crawler.py:38-41 | the result holds every requested key iff each key occurs with a non-negative value, the case that ends the loop early |
| Ancestry.HashTree.constructor | crawler.py:193-194 | a new table knows only the virtual parent `-1`, as "not inside" |
| Ancestry.HashTree.Add | crawler.py:44-71 | the returned entry is self if the node carries the tag, otherwise the parent's root if the parent is inside one, otherwise "not inside"; the table gains exactly that entry |
| Ancestry.AncestorIsEarlier | crawler.py:197 | when parents come first, every ancestor-or-self of a node has an index between 0 and the node's own |
| Ancestry.NearestTaggedIsNearest | crawler.py:54-69 | the recorded root is a tagged ancestor-or-self and no tagged node lies strictly between it and the node; "not inside" means no tagged ancestor-or-self exists |
| Ancestry.DeriveIsNearest | crawler.py:57-67 | deriving from the parent's nearest tagged ancestor gives the node's nearest tagged ancestor-or-self |
| Ancestry.TableStep | crawler.py:196-206 | the parent's entry is present when a node is added, and adding it extends the table for the first `i` nodes to the first `i + 1` |
| Compaction.SetDefault | crawler.py:257 | `setdefault(key, [])` adds the key with an empty list when it is missing and changes no existing entry |
| Compaction.Slot | crawler.py:208-319 | node `i` contributes an element iff it has a layout entry, is not blacklisted, is in the viewport, does not have the node value `|`, and is not a redundant descendant; that element carries index `i` |
| Compaction.PresentSound | crawler.py:306-319 | every collected element comes from its own node's slot |
| Compaction.PresentOrdered | crawler.py:306-319 | collected elements are in strictly increasing node order |
| Compaction.PresentComplete | crawler.py:306-319 | every admitted node appears among the collected elements |
| Compaction.VisitInView | crawler.py:208-319 | one iteration appends node `i`'s element exactly when the node is admitted |
| Compaction.Pass1InView | crawler.py:196-319 | the viewport list after `n` iterations is the admitted slots in order |
| Compaction.Pass1Members | crawler.py:196-319 | the viewport list is ordered by node index, each entry is its node's element, and every admitted node is in it |
| Compaction.PlaceChildren | crawler.py:246-284 | a node inside an anchor or button adds its contribution under the anchor's id, or the button's when there is no anchor; any other node leaves `child_nodes` unchanged |
| Compaction.VisitChildren | crawler.py:208-284 | an iteration changes `child_nodes` only for a routed node, by appending its contribution under its root |
| Compaction.RouteKeyTagged | crawler.py:247-253 | the key a descendant reports to is an earlier or equal node named `a` or `button` |
| Compaction.ContributionNoSeparator | crawler.py:260-266 | no contribution holds a separator glyph (a vertical bar or a bullet) as text |
| Compaction.VisitKeepsChildrenOk | crawler.py:246-284 | one iteration keeps `child_nodes` keyed by tagged nodes and free of separator text |
| Compaction.Pass1Children | crawler.py:196-284 | after the first loop every `child_nodes` key is an `a` or `button` node, and no separator text was routed |
| Compaction.RenamedLosesType | crawler.py:268-274 | a submit input or a button is named `button` and loses exactly its `type` attribute |
| Compaction.BufferWrites | crawler.py:369 | after a crawl, ids `0..n-1` hold the kept elements, the buffer gains no other id, and all other entries are unchanged |
| Compaction.KeepRule | crawler.py:350-367 | the merged text is empty iff the raw text is all whitespace; an element is kept iff it has text, or is a link, input or img, or is a button with attributes |
| Compaction.KeptOfIsFilter | crawler.py:360-367 | the kept list is exactly the merged elements that pass the keep rule |
| Compaction.KeptIsFilter | crawler.py:325-367 | every kept element is a passing merge of a viewport element, and every passing merge is kept |
| Compaction.LinesAt | crawler.py:371-379 | one line per kept element, line `j` rendering element `j` with id `j` |
| Compaction.KeptStep | crawler.py:360-379 | one more viewport element extends the kept list by its merge exactly when that merge passes |
| Compaction.LinesSnoc | crawler.py:371-379 | appending a kept element appends its line, numbered by its position |
| Compaction.BufferSnoc | crawler.py:369 | appending a kept element writes it under the next id |
| Compaction.KeptGrows | crawler.py:360-379 | one iteration of the second loop leaves kept list, lines and buffer alone on a drop, and otherwise extends all three by the new element |
| Compaction.LeadingDigitsOf | crawler.py:373 | the digits of a line's id are read up to the first non-digit |
| Compaction.MetaStringStart | crawler.py:350-352 | the meta string is empty or starts with a space |
| Compaction.RenderLineSplit | crawler.py:371-378 | every line is `<role id=`, then the id, then the meta and text or `/>` |
| Compaction.LineIdRoundTrip | crawler.py:373-377 | the id read back from a rendered line is the id it was rendered with |
| Compaction.LinesCarryIds | crawler.py:369-379 | the output has one line per kept element; line `j` carries id `j` and the buffer maps `j` to that element |
| Crawling.VisitNode | crawler.py:208-319 | one iteration of the first loop moves the pass 1 state from `i` nodes to `i + 1` nodes |
| Crawling.PlaceNode | crawler.py:239-304 | the attribute, `#text`, renaming and routing steps compute the function's next state |
| Crawling.FinishNode | crawler.py:286-319 | the node-value, input-value and redundancy steps append the element exactly when the function does |
| Crawling.SpreadAttributes | crawler.py:276-284 | attributes go, in order, either to the root's children or to the node's own metadata |
| Crawling.EnterNode | crawler.py:196-206 | both tables grow by node `i`, and the returned entries are its nearest anchor and nearest button ancestors |
| Crawling.CollectViewport | crawler.py:187-319 | the first loop yields the pass 1 state of all nodes, and its tables hold every node's nearest-tag entry |
| Crawling.MergeStep | crawler.py:339-348 | one child fragment extends the text by its text and a space, or the metadata by `key="value"` |
| Crawling.MergeChildren | crawler.py:336-348 | the inner text is the node value and a space, then each child's text and a space; the metadata is the node's own, then each child attribute as `key="value"` |
| Crawling.CompactNode | crawler.py:336-378 | the keep decision, the rendered line and the stored element are those of the element's merge |
| Crawling.Crawler.constructor | crawler.py:74-90 | a crawler starts with an empty page element buffer |
| Crawling.Crawler.GoToPage | crawler.py:87-90 | navigation empties the page element buffer |
| Crawling.Crawler.Crawl | crawler.py:128-382 | the lines are those of the kept elements of pass 1's result; the buffer is the old one overwritten at ids `0..n-1` by those elements; line `j` carries id `j`, and a click on `j` lands on the centre of line `j`'s element |
| Crawling.Crawler.ClickAfterCrawl | crawler.py:112-119 | after a crawl, line `j` carries id `j` and clicking `j` targets the centre of the element that line describes; any other id is looked up in the buffer as it was before the crawl, with no target when it is absent |
| Crawling.Crawler.Serialise | crawler.py:322-379 | the second loop outputs exactly the lines of the kept elements and writes them, in order, into the buffer |
| SubmitInputs.SubmitValueUnread | crawler.py:268-300 | an admitted submit input without a node value becomes a `button` whose value is never looked up |
| SubmitInputs.SubmitInputDropped | crawler.py:268-367 | such an element outside any anchor or button, with no other attribute and no routed children, fails the keep rule whatever its input value |
| SubmitInputs.LoneDropped | crawler.py:360-367 | a viewport list of one dropped element renders no line |
| SubmitInputs.ExamplePass1 | crawler.py:196-319 | pass 1 over the one-node submit page collects that input and routes nothing to it |
| SubmitInputs.ExampleCrawl | crawler.py:128-382 | a crawl of a page holding only a submit input with input value `Go` renders no line |
| SubmitInputs.IntendedSubmitKept | crawler.py:292-300 | looked up under its original name, a submit input with a non-blank input value carries that value and is kept, with non-empty text |
| SubmitInputs.ExampleIntended | crawler.py:292-367 | with that lookup, the example's input carries `Go` and is kept |

## Left out

- Browser I/O is not modelled: Playwright, the CDP session and the snapshot request. The snapshot is a parameter of `Crawl`; the pixel ratio and window bounds are parameters too.
- `go_to_page`'s navigation, and `scroll`, `type` and `enter`, are page I/O. `click` is modelled only as `ClickTarget`, the lookup of where the mouse would land.
- The macOS override of a pixel ratio of 1 to 2 depends on the host platform. The ratio is an input.
- Crawling.Crawler.Crawl: the scrollbar dictionary the source appends to a local list is not modelled. The source never returns that list.
- Crawling.Crawler.Crawl: the timing measurement and the printed parsing time are not modelled.
- Crawling.Crawler.Crawl: requires a well-formed snapshot and a non-zero pixel ratio. The model requires this shape of every node. The source raises only where it dereferences a bad reference, meets a parent not yet entered, or divides by a zero ratio. So the model does not cover snapshots that are malformed only in places the source never reads, such as the attributes of a node without a layout entry.
- Crawling.Crawler.constructor: the source creates the buffer only in `go_to_page`, so a crawl before navigation raises. The model starts with an empty buffer.
- Ancestry.HashTree.Add: requires the parent's entry to be present. The source's fallback for a missing parent calls itself with too few arguments and would raise.
- Coordinates are exact reals: division by the ratio is exact and `int()` truncates toward zero. Floating-point rounding is not modelled.
- Snapshot node names are lower-cased in ASCII only. Non-ASCII case folding is not modelled.
- `hash_tree` keys, `child_nodes` keys and each element's `node_index` are `str` of an index in the source, and integers here. The conversion is one-to-one. Buffer keys are integers in both.
- `find_attributes` removes found keys from the list it is given. Every caller passes a fresh literal, so the model works on a local copy.
- Snapshot fields the crawler reads but never uses are not modelled: `nodeType`, `textValue` and `inputChecked`.
- The keep rule's comparison with `textarea` is kept, but no role is ever named `textarea`, so it never fires (`Roles.Role.Name`).
- Crawling.VisitNode: requires the incoming state to be the pass 1 state of the first `i` nodes, and the entries to be node `i`'s. `CollectViewport` establishes both on every iteration.
- Crawling.CollectViewport: returns its two ancestry tables so that their final contents can be stated. The source leaves them in local variables.
- Crawling.Crawler.Crawl: follows the code as written for submit inputs, so their input value is never read. The variant that reads it is proved only in `SubmitInputs` (see "## Findings").

## Findings

| source | as written | input that shows it | evidently intended | confidence | as-written member | corrected member |
|---|---|---|---|---|---|---|
| crawler.py:268-300 | a submit input is renamed to `button` before the input-value lookup, which only runs for the name `input`, so its value is never read; without other attributes the keep rule then drops it | one laid-out node `input` with attributes `type=submit` and input value `Go` (`SubmitInputs.Example`): the crawl renders no line | the rename only avoids a doubled role label (comment at crawler.py:274), so the value lookup should still see the original name, and the input would be kept with `Go` as its value | medium, not executed | SubmitInputs.ExampleCrawl | SubmitInputs.IntendedSubmitKept |
