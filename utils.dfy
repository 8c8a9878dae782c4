/**
 The DOM utility layer of the overlay remover: the element filter
 (`isAnElement` / `forEachElement`), the ancestor walk (`collectParrents`),
 the subtree weight with early cut-off (`elementWeight` and its inner
 `calculateBreathFirst`), and the inline-style writes (`styleImportant`,
 `hideElement`) on a page whose inline styles change in place.
 */
module Utils {
  import opened Dom
  import opened CssText

  // ---------------------------------------------------------------------------
  // isAnElement / forEachElement

  /** The element nodes of a node list, in their order in the list (`.filter(isAnElement)`). */
  function Elements(t: Tree, nodeList: seq<NodeId>): (r: seq<NodeId>)
    ensures |r| <= |nodeList|
    ensures forall k :: 0 <= k < |r| ==> IsAnElement(t, r[k])
  {
    if nodeList == [] then []
    else
      var last := nodeList[|nodeList| - 1];
      Elements(t, nodeList[..|nodeList| - 1]) + (if IsAnElement(t, last) then [last] else [])
  }

  /** The filter keeps exactly the element nodes of the list. */
  lemma {:induction false} ElementsMembers(t: Tree, nodeList: seq<NodeId>)
    ensures forall x :: x in Elements(t, nodeList) <==> x in nodeList && IsAnElement(t, x)
    decreases |nodeList|
  {
    if nodeList != [] {
      var init, last := nodeList[..|nodeList| - 1], nodeList[|nodeList| - 1];
      ElementsMembers(t, init);
      assert nodeList == init + [last];
    }
  }

  /** A node that is not an element and hangs below a parent is a text or comment leaf. */
  lemma LeafHasNoDescendants(t: Tree, n: NodeId)
    requires Wf(t) && n < |t.nodes| && t.nodes[n].parent.Some? && !IsAnElement(t, n)
    ensures Descendants(t, n) == 0
  {
    assert t.nodes[n].kind != DocumentNode;
    assert t.nodes[n].children == [];
  }

  /** Every node of the list hangs below some parent (so it is not the document). */
  ghost predicate HaveParents(t: Tree, ids: seq<NodeId>)
  {
    forall k :: 0 <= k < |ids| ==> ids[k] < |t.nodes| && t.nodes[ids[k]].parent.Some?
  }

  lemma ChildrenHaveParents(t: Tree, n: NodeId)
    requires Wf(t)
    ensures HaveParents(t, Children(t, n))
  {
  }

  /** Text and comment children are leaves, so skipping them loses no descendant. */
  lemma {:induction false} LeavesAddNothing(t: Tree, cs: seq<NodeId>)
    requires Wf(t) && HaveParents(t, cs)
    ensures SumDescendants(t, cs) == SumDescendants(t, Elements(t, cs))
    decreases |cs|
  {
    if cs != [] {
      var init, last := cs[..|cs| - 1], cs[|cs| - 1];
      LeavesAddNothing(t, init);
      assert SumDescendants(t, cs) == SumDescendants(t, init) + Descendants(t, last);
      if IsAnElement(t, last) {
        var es := Elements(t, init) + [last];
        assert Elements(t, cs) == es;
        assert es[..|es| - 1] == Elements(t, init);
      } else {
        LeafHasNoDescendants(t, last);
        assert Elements(t, cs) == Elements(t, init);
      }
    }
  }

  // ---------------------------------------------------------------------------
  // elementWeight

  /** The children of the elements `es`, counted (what `calculateBreathFirst` adds for grandchildren). */
  function GrandCount(t: Tree, es: seq<NodeId>): nat
  {
    if es == [] then 0
    else GrandCount(t, es[..|es| - 1]) + |Children(t, es[|es| - 1])|
  }

  /** The element children of the elements `es`, in order (the grandchildren `calculateBreathFirst` queues). */
  function GrandElements(t: Tree, es: seq<NodeId>): (r: seq<NodeId>)
    ensures |r| <= GrandCount(t, es)
  {
    if es == [] then []
    else GrandElements(t, es[..|es| - 1]) + Elements(t, Children(t, es[|es| - 1]))
  }

  /** What one call of `calculateBreathFirst(n)` adds to the total. */
  function ExpandTotal(t: Tree, n: NodeId): nat
  {
    |Children(t, n)| + GrandCount(t, Elements(t, Children(t, n)))
  }

  /** The nodes one call of `calculateBreathFirst(n)` hands back for later expansion. */
  function ExpandNext(t: Tree, n: NodeId): seq<NodeId>
  {
    GrandElements(t, Elements(t, Children(t, n)))
  }

  lemma {:induction false} ElementsExpand(t: Tree, es: seq<NodeId>)
    requires Wf(t)
    requires forall k :: 0 <= k < |es| ==> IsAnElement(t, es[k])
    ensures SumDescendants(t, es) == GrandCount(t, es) + SumDescendants(t, GrandElements(t, es))
    decreases |es|
  {
    if es != [] {
      var init, e := es[..|es| - 1], es[|es| - 1];
      ElementsExpand(t, init);
      var ch := Children(t, e);
      SubtreesBelowCount(t, e, ch);
      ChildrenHaveParents(t, e);
      LeavesAddNothing(t, ch);
      SumDescendantsAppend(t, GrandElements(t, init), Elements(t, ch));
    }
  }

  /**
   One expansion accounts for part of the subtree exactly: the nodes it counts
   plus the descendants of the nodes it queues are the descendants of `n`, and
   it never queues more nodes than it counts.
   */
  lemma {:induction false} ExpansionAccounts(t: Tree, n: NodeId)
    requires Wf(t)
    ensures Descendants(t, n) == ExpandTotal(t, n) + SumDescendants(t, ExpandNext(t, n))
    ensures |ExpandNext(t, n)| <= ExpandTotal(t, n)
  {
    if n < |t.nodes| {
      var ch := Children(t, n);
      SubtreesBelowCount(t, n, ch);
      ChildrenHaveParents(t, n);
      LeavesAddNothing(t, ch);
      ElementsExpand(t, Elements(t, ch));
    }
  }

  /**
   `calculateBreathFirst(n)`: the number of children of `n` plus the number of
   children of each element child, and the element grandchildren of `n` in
   child-list order.
   */
  method CalculateBreadthFirst(t: Tree, n: NodeId) returns (total: nat, nextChildElements: seq<NodeId>)
    requires Wf(t)
    ensures total == ExpandTotal(t, n) && nextChildElements == ExpandNext(t, n)
    ensures total + SumDescendants(t, nextChildElements) == Descendants(t, n)
    ensures |nextChildElements| <= total
  {
    var childNodes := Children(t, n);
    total := |childNodes|;
    nextChildElements := [];
    var elements := Elements(t, childNodes);
    for k := 0 to |elements|
      invariant total == |childNodes| + GrandCount(t, elements[..k])
      invariant nextChildElements == GrandElements(t, elements[..k])
    {
      assert elements[..k + 1][..k] == elements[..k];
      var grandChildNodes := Children(t, elements[k]);
      total := total + |grandChildNodes|;
      nextChildElements := nextChildElements + Elements(t, grandChildNodes);
    }
    assert elements[..|elements|] == elements;
    ExpansionAccounts(t, n);
  }

  /**
   `elementWeight(element, maxThreshold)`: counts the descendants of `element`
   two levels per expanded node, expanding the queued nodes last-in first-out,
   and stops as soon as the count reaches `maxThreshold`. The result never
   exceeds the true number of descendants; it is that number unless the
   threshold was reached first.
   */
  method ElementWeight(t: Tree, element: NodeId, maxThreshold: int) returns (grandTotal: nat)
    requires Wf(t)
    ensures grandTotal <= Descendants(t, element)
    ensures grandTotal < maxThreshold <==> Descendants(t, element) < maxThreshold
    ensures grandTotal < maxThreshold ==> grandTotal == Descendants(t, element)
    ensures grandTotal >= |Children(t, element)|
  {
    grandTotal := 0;
    var nextElement: Option<NodeId> := Some(element);
    var nextGrandChildNodes: seq<NodeId> := [];
    while nextElement.Some?
      invariant nextElement.None? ==> nextGrandChildNodes == []
      invariant grandTotal + SumDescendants(t, Pending(nextElement, nextGrandChildNodes)) == Descendants(t, element)
      invariant grandTotal < maxThreshold || nextElement == Some(element)
      invariant grandTotal >= |Children(t, element)| || (grandTotal == 0 && nextElement == Some(element))
      decreases |Pending(nextElement, nextGrandChildNodes)| + SumDescendants(t, Pending(nextElement, nextGrandChildNodes))
    {
      var n := nextElement.value;
      ghost var pending := nextGrandChildNodes;
      ghost var stack := Pending(nextElement, nextGrandChildNodes);
      assert stack[..|stack| - 1] == pending && stack[|stack| - 1] == n;
      assert SumDescendants(t, stack) == SumDescendants(t, pending) + Descendants(t, n);
      var total, nextChildElements := CalculateBreadthFirst(t, n);
      SumDescendantsAppend(t, pending, nextChildElements);
      grandTotal := grandTotal + total;
      nextGrandChildNodes := nextGrandChildNodes + nextChildElements;
      if grandTotal >= maxThreshold {
        break;
      }
      ghost var rest := nextGrandChildNodes;
      if nextGrandChildNodes == [] {
        // pop() on an empty list gives undefined, which ends the loop
        nextElement := None;
      } else {
        nextElement := Some(nextGrandChildNodes[|nextGrandChildNodes| - 1]);
        nextGrandChildNodes := nextGrandChildNodes[..|nextGrandChildNodes| - 1];
        PopPending(rest);
      }
      assert Pending(nextElement, nextGrandChildNodes) == rest;
    }
  }

  lemma PopPending(s: seq<NodeId>)
    requires s != []
    ensures Pending(Some(s[|s| - 1]), s[..|s| - 1]) == s
  {
  }

  /** The loop's pending work as one stack: the queued nodes with the next node on top. */
  function Pending(nextElement: Option<NodeId>, queued: seq<NodeId>): seq<NodeId>
  {
    if nextElement.Some? then queued + [nextElement.value] else queued
  }

  // ---------------------------------------------------------------------------
  // collectParrents

  /**
   The nodes the upward walk visits from `n`: `n`, then its parent, and so on,
   stopping before a parent that is missing, the document, or the body.
   */
  function Chain(t: Tree, n: NodeId): (r: seq<NodeId>)
    requires Wf(t) && n < |t.nodes|
    ensures |r| >= 1 && r[0] == n && ValidIds(t, r)
    ensures forall k :: 0 <= k < |r| - 1 ==> t.nodes[r[k]].parent == Some(r[k + 1])
    ensures forall k :: 1 <= k < |r| ==> r[k] != t.document && r[k] != t.body
    ensures Descending(r)
    ensures var p := t.nodes[r[|r| - 1]].parent; p.None? || p.value == t.document || p.value == t.body
    decreases n
  {
    var parent := t.nodes[n].parent;
    if parent.Some? && parent.value != t.document && parent.value != t.body then
      [n] + Chain(t, parent.value)
    else [n]
  }

  /** Node identifiers strictly decreasing (on a parent chain such as `Chain`, each entry is an ancestor of the one before). */
  predicate Descending(s: seq<NodeId>)
  {
    forall j, k :: 0 <= j < k < |s| ==> s[k] < s[j]
  }

  /** The entries of `s` that satisfy `pred`, in their order. */
  function Filter(s: seq<NodeId>, pred: NodeId -> bool): (r: seq<NodeId>)
    ensures |r| <= |s|
    ensures forall x :: x in r <==> x in s && pred(x)
  {
    if s == [] then []
    else (if pred(s[0]) then [s[0]] else []) + Filter(s[1..], pred)
  }

  lemma {:induction false} FilterDescending(s: seq<NodeId>, pred: NodeId -> bool)
    requires Descending(s)
    ensures Descending(Filter(s, pred))
    decreases |s|
  {
    if s != [] {
      FilterDescending(s[1..], pred);
      var rest := Filter(s[1..], pred);
      var r := Filter(s, pred);
      forall x | x in rest
        ensures x < s[0]
      {
        var i :| 0 <= i < |s[1..]| && s[1..][i] == x;
      }
      forall j, k | 0 <= j < k < |r|
        ensures r[k] < r[j]
      {
        if pred(s[0]) {
          assert r[k] == rest[k - 1] && r[k] in rest;
          if j > 0 {
            assert r[j] == rest[j - 1];
          }
        }
      }
    }
  }

  /**
   `collectParrents(n, pred)`: the nodes of the upward walk from `n` that
   satisfy `pred`, nearest first.
   */
  function CollectParents(t: Tree, n: NodeId, pred: NodeId -> bool): (r: seq<NodeId>)
    requires Wf(t) && n < |t.nodes|
    ensures forall k :: 0 <= k < |r| ==> r[k] <= n
    decreases n
  {
    var matchedElement := if pred(n) then [n] else [];
    var parent := t.nodes[n].parent;
    if parent.Some? && parent.value != t.document && parent.value != t.body then
      matchedElement + CollectParents(t, parent.value, pred)
    else
      matchedElement
  }

  /** The recursion of `collectParrents` filters the upward walk. */
  lemma {:induction false} CollectParentsFilters(t: Tree, n: NodeId, pred: NodeId -> bool)
    requires Wf(t) && n < |t.nodes|
    ensures CollectParents(t, n, pred) == Filter(Chain(t, n), pred)
    decreases n
  {
    var parent := t.nodes[n].parent;
    if parent.Some? && parent.value != t.document && parent.value != t.body {
      CollectParentsFilters(t, parent.value, pred);
      var ch := Chain(t, n);
      assert ch[1..] == Chain(t, parent.value);
    }
  }

  /**
   What `collectParrents` returns: exactly the nodes of the walk that satisfy
   `pred`, nearest first; the start node is among them exactly when it
   satisfies `pred`; the document and the body are returned only when the
   walk starts there.
   */
  lemma CollectParentsMatches(t: Tree, n: NodeId, pred: NodeId -> bool)
    requires Wf(t) && n < |t.nodes|
    ensures var r := CollectParents(t, n, pred);
      && (forall x :: x in r <==> x in Chain(t, n) && pred(x))
      && (n in r <==> pred(n))
      && (forall x :: x in r && (x == t.document || x == t.body) ==> x == n)
      && Descending(r)
  {
    var ch := Chain(t, n);
    CollectParentsFilters(t, n, pred);
    FilterDescending(ch, pred);
    forall x | x in CollectParents(t, n, pred) && (x == t.document || x == t.body)
      ensures x == n
    {
      var i :| 0 <= i < |ch| && ch[i] == x;
    }
  }

  // ---------------------------------------------------------------------------
  // styleImportant / hideElement

  /** The page: its fixed tree and the inline style text of every node, which the remover rewrites. */
  class Page {
    const tree: Tree
    var cssText: seq<string>

    ghost predicate Valid()
      reads this
    {
      Wf(tree) && |cssText| == |tree.nodes|
    }

    constructor (tree: Tree, cssText: seq<string>)
      requires Wf(tree) && |cssText| == |tree.nodes|
      ensures Valid() && this.tree == tree && this.cssText == cssText
    {
      this.tree := tree;
      this.cssText := cssText;
    }

    /**
     `styleImportant(element, cssProperty, cssValue)`: clears the property,
     then appends `cssProperty: cssValue !important;` to what is left, after
     a `;` only if that text is non-empty and does not already end in one.
     */
    method StyleImportant(element: NodeId, cssProperty: string, cssValue: string)
      requires Valid() && element < |tree.nodes|
      modifies this
      ensures Valid()
      ensures cssText == old(cssText)[element := StyleImportantText(old(cssText)[element], cssProperty, cssValue)]
    {
      cssText := cssText[element := WithoutProperty(cssText[element], cssProperty)];
      var text := cssText[element];
      if |text| > 0 && text[|text| - 1] != ';' {
        text := text + ";";
      }
      assert text + cssProperty + ": " + cssValue + " !important;" == text + Decl(cssProperty, cssValue) + ";";
      cssText := cssText[element := text + cssProperty + ": " + cssValue + " !important;"];
    }

    /** `hideElement(element)`: `display: none !important`, which leaves the element hidden. */
    method HideElement(element: NodeId)
      requires Valid() && element < |tree.nodes|
      modifies this
      ensures Valid()
      ensures cssText == old(cssText)[element := HideText(old(cssText)[element])]
      ensures Hidden(cssText[element])
    {
      StyleImportant(element, "display", "none");
      HideHides(old(cssText)[element]);
    }
  }
}
