/**
 The host document as the overlay remover sees it: a finite tree of nodes with
 parent links, child lists, a node kind, and the two computed-style values the
 heuristic reads (the parsed z-index and the computed overflow).

 Nodes are identified by numbers such that a node's parent always has a
 smaller identifier than the node and its children larger ones (document order
 is one such numbering, but nothing more than this is assumed). That numbering
 is what makes the upward walk and the subtree count terminate.
 */
module Dom {

  datatype Option<T> = None | Some(value: T)

  type NodeId = nat

  /** The DOM `nodeType` distinctions the heuristic relies on. */
  datatype Kind = Element | Text | Comment | DocumentNode

  /**
   A node of the tree. `zIndex` is `parseInt` of the computed z-index: `None`
   stands for NaN (`auto`, or no stacking context). `overflow` is the computed
   overflow value.
   */
  datatype Node = Node(
    kind: Kind,
    parent: Option<NodeId>,
    children: seq<NodeId>,
    zIndex: Option<int>,
    overflow: string)

  /** The whole document: its nodes, and the `document`, `document.documentElement` and `document.body` nodes. */
  datatype Tree = Tree(nodes: seq<Node>, document: NodeId, documentElement: NodeId, body: NodeId)

  /** A well-formed document tree. */
  ghost predicate Wf(t: Tree)
  {
    && t.document < |t.nodes|
    && t.documentElement < |t.nodes|
    && t.body < |t.nodes|
    && t.nodes[t.document].kind == DocumentNode
    && t.nodes[t.documentElement].kind == Element
    && t.nodes[t.body].kind == Element
    && t.nodes[t.documentElement].parent == Some(t.document)
    && t.nodes[t.body].parent == Some(t.documentElement)
    // a parent has a smaller identifier than its child
    && (forall i :: 0 <= i < |t.nodes| && t.nodes[i].parent.Some? ==> t.nodes[i].parent.value < i)
    // child lists agree with the parent links
    && (forall i, k :: 0 <= i < |t.nodes| && 0 <= k < |t.nodes[i].children| ==>
          i < t.nodes[i].children[k] < |t.nodes| && t.nodes[t.nodes[i].children[k]].parent == Some(i))
    // the document is the root; text and comment nodes are leaves
    && (forall i :: 0 <= i < |t.nodes| && t.nodes[i].kind == DocumentNode ==> t.nodes[i].parent == None)
    && (forall i :: 0 <= i < |t.nodes| && t.nodes[i].kind in {Text, Comment} ==> t.nodes[i].children == [])
  }

  predicate ValidIds(t: Tree, ids: seq<NodeId>)
  {
    forall k :: 0 <= k < |ids| ==> ids[k] < |t.nodes|
  }

  /** `isAnElement`: `nodeType === 1`. */
  predicate IsAnElement(t: Tree, n: NodeId)
  {
    n < |t.nodes| && t.nodes[n].kind == Element
  }

  /** `node.childNodes` (nothing for an identifier outside the tree). */
  function Children(t: Tree, n: NodeId): seq<NodeId>
  {
    if n < |t.nodes| then t.nodes[n].children else []
  }

  /** The number of descendant nodes of `n` (children, grandchildren, and so on). */
  function Descendants(t: Tree, n: NodeId): nat
    requires Wf(t)
    decreases |t.nodes| - n, 1, 0
  {
    if n < |t.nodes| then SubtreesBelow(t, n, t.nodes[n].children) else 0
  }

  /** The sizes of the subtrees rooted at `cs` (each a child of `n`), the roots included. */
  function SubtreesBelow(t: Tree, n: NodeId, cs: seq<NodeId>): nat
    requires Wf(t) && n < |t.nodes|
    requires forall k :: 0 <= k < |cs| ==> n < cs[k] < |t.nodes|
    decreases |t.nodes| - n, 0, |cs|
  {
    if cs == [] then 0
    else SubtreesBelow(t, n, cs[..|cs| - 1]) + 1 + Descendants(t, cs[|cs| - 1])
  }

  /** The descendant counts of the nodes in `ids`, summed. */
  function SumDescendants(t: Tree, ids: seq<NodeId>): nat
    requires Wf(t)
  {
    if ids == [] then 0
    else SumDescendants(t, ids[..|ids| - 1]) + Descendants(t, ids[|ids| - 1])
  }

  lemma {:induction false} SumDescendantsAppend(t: Tree, a: seq<NodeId>, b: seq<NodeId>)
    requires Wf(t)
    ensures SumDescendants(t, a + b) == SumDescendants(t, a) + SumDescendants(t, b)
    decreases |b|
  {
    if b == [] {
      assert a + b == a;
    } else {
      var b' := b[..|b| - 1];
      assert (a + b)[..|a + b| - 1] == a + b';
      SumDescendantsAppend(t, a, b');
    }
  }

  /** A node's descendants are its children plus their descendants. */
  lemma {:induction false} SubtreesBelowCount(t: Tree, n: NodeId, cs: seq<NodeId>)
    requires Wf(t) && n < |t.nodes|
    requires forall k :: 0 <= k < |cs| ==> n < cs[k] < |t.nodes|
    ensures SubtreesBelow(t, n, cs) == |cs| + SumDescendants(t, cs)
    decreases |cs|
  {
    if cs != [] {
      SubtreesBelowCount(t, n, cs[..|cs| - 1]);
    }
  }
}
