# Overlay remover, modelled in Dafny

This project models the content script of the "Behind The Overlay Revival"
browser extension, `extension/js/overlay_remover.js`. When the user clicks
the toolbar button, `run()` does the following:

- It looks at the node in the middle of the viewport.
- It walks up from that node to the outermost ancestor with a positive
  z-index, and hides that ancestor with an inline
  `display: none !important`.
- On the first pass it also relaxes `overflow: hidden` on `<html>` and
  `<body>`, so that the page scrolls again.
- It repeats this up to ten times. After the first pass it hides a candidate
  only when the candidate's subtree is light (fewer than 100 descendants), so
  that the page's real content is never hidden.
- If the very first pass finds nothing, it shows an alert.

The model has four modules:

- `Dom` (`dom.dfy`) is the document.
  - It is a finite tree of numbered nodes in which every parent has a
    smaller number than its children (document order is one such numbering;
    nothing more is assumed).
  - Each node has a kind, its parent, its child list, its parsed computed
    z-index (`None` for NaN/`auto`) and its computed overflow.
  - `Descendants` counts a subtree.
- `CssText` (`css_text.dfy`) is the inline style text.
  - A style text is read as `;`-separated declarations.
  - Clearing a property (`element.style[prop] = ''`) drops the declarations
    that name it.
  - `styleImportant` re-appends `prop: value !important;` after a separator.
- `Utils` (`utils.dfy`) is the `utils` object of the script.
  - The element filter.
  - The upward walk `collectParrents`.
  - `elementWeight`, with its inner `calculateBreathFirst`, as imperative
    methods with loop invariants.
  - A `Page` class whose `cssText` field (one inline style per node) the
    methods `StyleImportant` and `HideElement` update in place.
- `OverlayRemover` (`overlay_remover.dfy`) is the remover itself.
  - `methodTwoHideElementMiddle` is `MiddleCandidate`, over the result of the
    hit test.
  - `containersOverflowAuto` is a method on the page.
  - `run()` is the methods `Pass`, `Run` and `RunMiddle`. They are proved
    equal to the specification function `RunFrom`, which records each pass's
    decision, the final inline styles and whether the alert was shown.
  - The properties of the run are lemmas about `RunFrom`.

The hit test `document.elementFromPoint` depends on the layout, so it is a
parameter. `hit` maps the page's current inline styles to the node found in
the middle of the viewport, or to none. Hiding a node therefore changes what
the next pass finds.

`Run` is proved for any candidate search `search`. `RunMiddle` is `run()` with
the corrected candidate search: its search is `MiddlePick(tree, hit)`, which is
`methodTwoHideElementMiddle` over the hit test with a null hit treated as no
candidate. The script as written throws on a null hit instead (see
"## Findings"), so on a page where the first hit test finds nothing
`RunMiddle` shows the alert while the script shows none.

## Model

| member | source | states |
|---|---|---|
| CssText.ClearAbsentProperty | extension/js/overlay_remover.js:17 | clearing a property that no declaration names gives back the style text unchanged |
| CssText.WithoutPropertyClears | extension/js/overlay_remover.js:17 | after `element.style[prop] = ''` no declaration names `prop`; every other non-empty declaration is kept |
| CssText.StyleImportantDeclarations | extension/js/overlay_remover.js:16-24 | the declarations after `styleImportant` are the old ones not naming `prop`, in order, then `prop: value !important` and the empty piece after its `;`; no empty declaration is inserted before the new one |
| CssText.ClearAfterStyleImportant | extension/js/overlay_remover.js:16-24 | clearing `prop` after `styleImportant` gives back exactly the separated text the declaration was appended to |
| CssText.StyleImportantIdempotent | extension/js/overlay_remover.js:16-24 | `styleImportant` applied twice with the same arguments equals applying it once |
| CssText.HideHides | extension/js/overlay_remover.js:12-14 | after `hideElement` the style text holds the declaration `display: none !important` |
| CssText.HideIdempotent | extension/js/overlay_remover.js:12-14 | `hideElement` applied twice gives the same style text as applying it once (hiding an element whose text already holds the declaration elsewhere may move it to the end) |
| CssText.StyleImportantKeeps | extension/js/overlay_remover.js:16-24 | every non-empty declaration of the old text that does not name `prop` is still a declaration after `styleImportant` of `prop` |
| CssText.StyleImportantKeepsHidden | extension/js/overlay_remover.js:16-24 | `styleImportant` of a property other than `display` keeps a hidden element hidden |
| CssText.OverflowKeepsHidden | extension/js/overlay_remover.js:157 | setting `overflow: auto !important` keeps a hidden element hidden |
| Utils.Elements | extension/js/overlay_remover.js:34-47 | the filtered list is no longer than the node list and holds only nodes with `nodeType === 1` |
| Utils.ElementsMembers | extension/js/overlay_remover.js:43-47 | `forEachElement` visits exactly the element nodes of the list |
| Utils.LeavesAddNothing | extension/js/overlay_remover.js:73-77 | skipping non-element children loses no descendant, because text and comment nodes are leaves |
| Utils.ExpansionAccounts | extension/js/overlay_remover.js:66-80 | what one `calculateBreathFirst(n)` counts, plus the descendants of the grandchildren it queues, is exactly the descendant count of `n`; it never queues more than it counts |
| Utils.CalculateBreadthFirst | extension/js/overlay_remover.js:66-80 | returns the child count plus the grandchild count and the element grandchildren in child-list order; with the queued nodes' descendants these make up the whole subtree |
| Utils.ElementWeight | extension/js/overlay_remover.js:61-98 | the weight never exceeds the true descendant count; it is below the threshold exactly when the descendant count is, and then it is exact; it is at least the number of children |
| Utils.Chain | extension/js/overlay_remover.js:49-58 | the upward walk starts at the node, follows parent links, never continues past the document or the body, and visits strictly decreasing node ids |
| Utils.CollectParents | extension/js/overlay_remover.js:49-58 | every node id returned is at most the start node's id |
| Utils.CollectParentsFilters | extension/js/overlay_remover.js:49-58 | `collectParrents(n, pred)` is the upward walk from `n` filtered by `pred`, nearest first |
| Utils.CollectParentsMatches | extension/js/overlay_remover.js:49-58 | the result holds exactly the walk's nodes that satisfy `pred`; the start node is in it iff it satisfies `pred`; the document and the body appear only as the start node; the result is ordered upward |
| Utils.Page.StyleImportant | extension/js/overlay_remover.js:16-24 | the element's inline style becomes the `styleImportant` text of its old style; no other node changes |
| Utils.Page.HideElement | extension/js/overlay_remover.js:12-14 | the element's inline style becomes `HideText` of its old style and is hidden; no other node changes |
| OverlayRemover.MiddleCandidate | extension/js/overlay_remover.js:131-150 | a candidate exists only when something was hit, and it is a node of the page |
| OverlayRemover.MiddleCandidateIsLast | extension/js/overlay_remover.js:141-149 | the candidate is the last (outermost) element of the filtered walk, and there is none when that list is empty |
| OverlayRemover.MiddleCandidateNone | extension/js/overlay_remover.js:131-142 | there is no candidate iff nothing was hit or no node of the walk has a z-index that parses to a positive number (NaN never counts) |
| OverlayRemover.MiddleCandidateOutermost | extension/js/overlay_remover.js:131-149 | a candidate is on the walk, has a positive z-index, and has no positive-z-index node above it on the walk |
| OverlayRemover.MiddleCandidateAsWritten | extension/js/overlay_remover.js:49-51 | the code as written throws exactly when the hit test found nothing; otherwise it returns the corrected candidate |
| OverlayRemover.NullHitThrows | extension/js/overlay_remover.js:49-51 | an empty hit test makes the code as written throw where the corrected version returns no candidate |
| OverlayRemover.ContainersOnly | extension/js/overlay_remover.js:152-160 | `containersOverflowAuto` changes only `<html>` and `<body>`; each gets `overflow: auto !important` exactly when its computed overflow is `hidden` |
| OverlayRemover.OverflowAutoKeepsHidden | extension/js/overlay_remover.js:152-160 | relaxing the containers never un-hides a node |
| OverlayRemover.ContainersOverflowAuto | extension/js/overlay_remover.js:152-160 | the loop over `[documentElement, body]` leaves the page's styles equal to `OverflowAuto` of the old styles |
| OverlayRemover.StepFacts | extension/js/overlay_remover.js:170-189 | after one pass a hidden candidate is hidden, no hidden node is un-hidden, and only the candidate (and on the first pass `<html>`/`<body>`) changes |
| OverlayRemover.Pass | extension/js/overlay_remover.js:164-190 | a pass misses iff the search finds nothing, and then changes nothing; otherwise it hides the first candidate and relaxes the containers, or hides a later candidate only when it is light, and the rest of the run goes on from there |
| OverlayRemover.Run | extension/js/overlay_remover.js:162-192 | the loop ends with the inline styles and the alert that the specification `RunFrom` gives, for any candidate search |
| OverlayRemover.RunMiddle | extension/js/overlay_remover.js:162-192 | `run()` with the corrected `methodTwoHideElementMiddle` (a null hit is no candidate, see "## Findings") over the hit test ends as `RunFrom` with that search |
| OverlayRemover.AtMostTenPasses | extension/js/overlay_remover.js:163 | a run makes at most ten passes |
| OverlayRemover.MissEndsRun | extension/js/overlay_remover.js:166-169 | a miss can only be the last pass, every run makes at least one pass, and a run shorter than ten passes ended on a miss |
| OverlayRemover.AlertOnFirstMissOnly | extension/js/overlay_remover.js:165-168 | the alert is shown iff the first pass finds no candidate, and the first decision is a miss iff the alert was shown |
| OverlayRemover.NoLaterAlert | extension/js/overlay_remover.js:166-169 | a miss after the first pass ends the run without an alert |
| OverlayRemover.DecisionsFollowPolicy | extension/js/overlay_remover.js:171-189 | only the first pass hides unconditionally; a later candidate is hidden iff it has fewer than 100 descendants, otherwise it is kept |
| OverlayRemover.NeverUnhides | extension/js/overlay_remover.js:162-192 | a node hidden when a run starts is still hidden when it ends |
| OverlayRemover.HiddenCandidatesStayHidden | extension/js/overlay_remover.js:162-192 | every candidate a pass hides is still hidden when `run()` returns |
| OverlayRemover.RunFrame | extension/js/overlay_remover.js:162-192 | a run changes only the inline styles of the candidates it hid and, when the first pass hid something, of `<html>` and `<body>` |
| OverlayRemover.DecisionsArePicks | extension/js/overlay_remover.js:164 | every node a pass hides or keeps was returned by the candidate search: any property that every node the search can return has, every decided node has |
| OverlayRemover.MiddleRunTouchesOverlaysOnly | extension/js/overlay_remover.js:162-192 | with `methodTwoHideElementMiddle` as the search, every node `run()` hides or keeps has a positive z-index |

## Left out

- `isVisible` (lines 26-28) and `hideElementsAtZIndexNear` (lines 112-127): nothing in the script calls them.
- `nodeListToArray`: node lists are sequences already.
- Internationalised alert text (line 9) and the `alert` call itself: the run reports only whether the alert was shown.
- Debug logging (lines 8, 138-139, 146-147, 177-184): `debug` is `false` and logging changes no state.
- The module wiring (lines 100-108, 111, 194-199): the functions are modelled directly.
- Layout and `document.elementFromPoint` (lines 132-133): the hit test is the parameter `hit`, from the current inline styles to the node found, if any.
- `getComputedStyle` (lines 31, 156): the parsed z-index and the computed overflow are fixed per node. The effect of inline styles on computed values is not modelled.
- CSSOM re-serialisation of `style.cssText`: clearing a property drops its declarations and keeps the rest of the text verbatim.
- A `null` `style.cssText` (the `|| ''` on line 18): a style text is always a string.
- Documents without `<body>`: the tree always has a document node, a root element and a body.
- ElementWeight: once the threshold is reached, the result is bounded by the true descendant count but not pinned to a value, because the exact overshoot depends on the last-in first-out expansion order.
- CollectParents: its own contract bounds only the ids it returns. That every returned node is the start node or one of its ancestors, and exactly which ones, is proved separately in `CollectParentsFilters` (the result is the upward walk `Chain` filtered by the predicate) and `CollectParentsMatches`.
- Hidden: an element counts as hidden when `display: none !important` is one of its declarations. The CSS rule that a later declaration of the same property wins is not modelled. The script never writes `display` with any other value, and `styleImportant` drops earlier declarations of a property before appending it.
- MiddleCandidate: its own contract states only that a candidate is a node of the page hit by the test. The outermost-overlay property is proved separately in `MiddleCandidateIsLast`, `MiddleCandidateNone` and `MiddleCandidateOutermost`.

## Findings

| source | as written | input that shows it | evidently intended | confidence | as-written member | corrected member |
|---|---|---|---|---|---|---|
| extension/js/overlay_remover.js:50-51 | `collectParrents` guards `element` against null before calling the predicate, then reads `element.parentNode` unconditionally | `document.elementFromPoint` returns `null` for the middle of the viewport (there is no viewport, or the point lies outside it): `run()` throws a TypeError instead of treating the pass as a miss and showing the alert | a null hit is a miss: no candidate, the alert on the first pass | not executed | OverlayRemover.MiddleCandidateAsWritten (with OverlayRemover.NullHitThrows) | OverlayRemover.MiddleCandidate |
