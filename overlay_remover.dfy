/**
 The overlay remover proper: pick the outermost positively stacked ancestor of
 whatever sits in the middle of the viewport (`methodTwoHideElementMiddle`),
 relax `overflow: hidden` on the root containers (`containersOverflowAuto`),
 and the driver (`run`) that repeats the pick up to ten times, hiding the
 first candidate unconditionally and later ones only when they are light.

 The hit test in the middle of the viewport is an oracle `hit` from the
 current inline styles of the page to the node found there (or none): hiding
 a node changes what the next hit test returns.
 */
module OverlayRemover {
  import opened Dom
  import opened CssText
  import opened Utils

  /** The number of passes `run` makes at most. */
  const Passes: nat := 10

  /** The weight below which a candidate after the first pass is hidden. */
  const WeightThreshold: nat := 100

  /**
   An oracle from the inline styles of the page to a node (the hit test, or
   the whole candidate search) only ever names nodes of the tree.
   */
  ghost predicate NamesNodes(t: Tree, oracle: seq<string> -> Option<NodeId>)
  {
    forall styles :: oracle(styles).Some? ==> oracle(styles).value < |t.nodes|
  }

  // ---------------------------------------------------------------------------
  // getZIndex / methodTwoHideElementMiddle

  /** `getZIndex(el) > 0`; a z-index that parses to NaN (`auto`) compares false. */
  predicate PositiveZIndex(t: Tree, n: NodeId)
  {
    n < |t.nodes| && t.nodes[n].zIndex.Some? && t.nodes[n].zIndex.value > 0
  }

  /** The predicate handed to `collectParrents`. */
  function PositiveZ(t: Tree): NodeId -> bool
  {
    (n: NodeId) => PositiveZIndex(t, n)
  }

  /** The last entry of a filtered sequence is an entry with no later match. */
  lemma {:induction false} FilterLast(s: seq<NodeId>, pred: NodeId -> bool) returns (i: nat)
    requires Filter(s, pred) != []
    ensures var f := Filter(s, pred);
      i < |s| && s[i] == f[|f| - 1] && pred(s[i]) &&
      forall j :: i < j < |s| ==> !pred(s[j])
    decreases |s|
  {
    var f := Filter(s, pred);
    var rest := Filter(s[1..], pred);
    if rest == [] {
      assert pred(s[0]) && f == [s[0]];
      i := 0;
      forall j | 0 < j < |s|
        ensures !pred(s[j])
      {
        assert s[j] == s[1..][j - 1];
        assert !(s[j] in rest);
      }
    } else {
      var k := FilterLast(s[1..], pred);
      assert f[|f| - 1] == rest[|rest| - 1];
      i := k + 1;
      forall j | i < j < |s|
        ensures !pred(s[j])
      {
        assert s[j] == s[1..][j - 1];
      }
    }
  }

  /**
   `methodTwoHideElementMiddle()` as the code evidently intends it: no
   candidate (`false`) when nothing was hit, otherwise the last (outermost)
   node `collectParrents` finds with a positive z-index, if any.
   */
  function MiddleCandidate(t: Tree, hit: Option<NodeId>): (r: Option<NodeId>)
    requires Wf(t) && (hit.Some? ==> hit.value < |t.nodes|)
    ensures r.Some? ==> hit.Some? && r.value < |t.nodes|
  {
    if hit.None? then None
    else
      var overlayFound := CollectParents(t, hit.value, PositiveZ(t));
      if |overlayFound| == 0 then None
      else
        assert overlayFound[|overlayFound| - 1] in overlayFound;
        Some(overlayFound[|overlayFound| - 1])
  }

  /** The candidate is the last node `collectParrents` finds. */
  lemma MiddleCandidateIsLast(t: Tree, n: NodeId)
    requires Wf(t) && n < |t.nodes|
    ensures var found := Filter(Chain(t, n), PositiveZ(t));
      MiddleCandidate(t, Some(n)) == if found == [] then None else Some(found[|found| - 1])
  {
    CollectParentsFilters(t, n, PositiveZ(t));
  }

  /**
   No candidate exactly when nothing was hit or no node of the upward walk
   from the hit has a positive z-index (a NaN z-index never counts).
   */
  lemma MiddleCandidateNone(t: Tree, hit: Option<NodeId>)
    requires Wf(t) && (hit.Some? ==> hit.value < |t.nodes|)
    ensures MiddleCandidate(t, hit).None? <==>
      hit.None? || forall x :: x in Chain(t, hit.value) ==> !PositiveZIndex(t, x)
  {
    if hit.Some? {
      var ch := Chain(t, hit.value);
      var found := Filter(ch, PositiveZ(t));
      MiddleCandidateIsLast(t, hit.value);
      if found != [] {
        assert found[|found| - 1] in found;
      }
    }
  }

  /**
   A candidate is a node of the upward walk from the hit with a positive
   z-index and no such node further up: the outermost overlay.
   */
  lemma MiddleCandidateOutermost(t: Tree, hit: Option<NodeId>)
    requires Wf(t) && (hit.Some? ==> hit.value < |t.nodes|)
    requires MiddleCandidate(t, hit).Some?
    ensures var c := MiddleCandidate(t, hit).value;
      && hit.Some? && PositiveZIndex(t, c)
      && var ch := Chain(t, hit.value);
         exists i :: 0 <= i < |ch| && ch[i] == c && forall j :: i < j < |ch| ==> !PositiveZIndex(t, ch[j])
  {
    var ch := Chain(t, hit.value);
    var pred := PositiveZ(t);
    var found := Filter(ch, pred);
    MiddleCandidateIsLast(t, hit.value);
    var i := FilterLast(ch, pred);
    assert MiddleCandidate(t, hit).value == ch[i];
    forall j | i < j < |ch|
      ensures !PositiveZIndex(t, ch[j])
    {
      assert !pred(ch[j]);
    }
  }

  /** The outcome of a call that may throw. */
  datatype Thrown<T> = Returned(value: T) | TypeError

  /**
   `methodTwoHideElementMiddle()` as written: `collectParrents` guards its
   argument against null for the predicate but then reads `parentNode` of it
   unconditionally, so an empty hit test throws instead of giving no candidate.
   */
  function MiddleCandidateAsWritten(t: Tree, hit: Option<NodeId>): (r: Thrown<Option<NodeId>>)
    requires Wf(t) && (hit.Some? ==> hit.value < |t.nodes|)
    ensures r.Returned? <==> hit.Some?
    ensures r.Returned? ==> r.value == MiddleCandidate(t, hit)
  {
    if hit.None? then TypeError
    else Returned(MiddleCandidate(t, hit))
  }

  /** An empty hit test makes the code as written throw where no candidate was evidently meant. */
  lemma NullHitThrows(t: Tree)
    requires Wf(t)
    ensures MiddleCandidateAsWritten(t, None) == TypeError
    ensures MiddleCandidate(t, None) == None
  {
  }

  // ---------------------------------------------------------------------------
  // containersOverflowAuto

  /** One container: `overflow: auto !important` when its computed overflow is `hidden`. */
  function Relax(t: Tree, styles: seq<string>, n: NodeId): (r: seq<string>)
    requires n < |t.nodes| == |styles|
  {
    styles[n := Relaxed(t, styles, n)]
  }

  /** The containers `ids`, relaxed in order. */
  function RelaxAll(t: Tree, styles: seq<string>, ids: seq<NodeId>): (r: seq<string>)
    requires |styles| == |t.nodes| && ValidIds(t, ids)
    ensures |r| == |styles|
  {
    if ids == [] then styles
    else Relax(t, RelaxAll(t, styles, ids[..|ids| - 1]), ids[|ids| - 1])
  }

  /** The inline styles after `containersOverflowAuto()`. */
  function OverflowAuto(t: Tree, styles: seq<string>): (r: seq<string>)
    requires Wf(t) && |styles| == |t.nodes|
    ensures |r| == |styles|
  {
    RelaxAll(t, styles, [t.documentElement, t.body])
  }

  /**
   `containersOverflowAuto` touches only the root element and the body, each
   only when its computed overflow is `hidden`, and then exactly as
   `styleImportant(el, 'overflow', 'auto')` does.
   */
  lemma ContainersOnly(t: Tree, styles: seq<string>)
    requires Wf(t) && |styles| == |t.nodes|
    ensures var r := OverflowAuto(t, styles);
      forall n :: 0 <= n < |r| && n != t.documentElement && n != t.body ==> r[n] == styles[n]
    ensures var r := OverflowAuto(t, styles);
      && r[t.documentElement] == Relaxed(t, styles, t.documentElement)
      && r[t.body] == Relaxed(t, styles, t.body)
  {
    var h, b := t.documentElement, t.body;
    assert h != b;
    var ids := [h, b];
    assert ids[..1] == [h] && [h][..0] == [];
    var s1 := Relax(t, styles, h);
    assert RelaxAll(t, styles, [h]) == s1;
    assert OverflowAuto(t, styles) == Relax(t, s1, b);
  }

  /** The new inline style of a container `n`. */
  function Relaxed(t: Tree, styles: seq<string>, n: NodeId): string
    requires n < |t.nodes| == |styles|
  {
    if t.nodes[n].overflow == "hidden" then StyleImportantText(styles[n], "overflow", "auto") else styles[n]
  }

  /** Relaxing the containers leaves every hidden node hidden. */
  lemma OverflowAutoKeepsHidden(t: Tree, styles: seq<string>, n: NodeId)
    requires Wf(t) && |styles| == |t.nodes| && n < |styles| && Hidden(styles[n])
    ensures Hidden(OverflowAuto(t, styles)[n])
  {
    ContainersOnly(t, styles);
    if n == t.documentElement || n == t.body {
      if t.nodes[n].overflow == "hidden" {
        OverflowKeepsHidden(styles[n]);
      }
    }
  }

  /** `containersOverflowAuto()` on the page. */
  method ContainersOverflowAuto(page: Page)
    requires page.Valid()
    modifies page
    ensures page.Valid()
    ensures page.cssText == OverflowAuto(page.tree, old(page.cssText))
  {
    var containers := [page.tree.documentElement, page.tree.body];
    for k := 0 to |containers|
      invariant page.Valid()
      invariant page.cssText == RelaxAll(page.tree, old(page.cssText), containers[..k])
    {
      assert containers[..k + 1][..k] == containers[..k];
      var element := containers[k];
      if page.tree.nodes[element].overflow == "hidden" {
        page.StyleImportant(element, "overflow", "auto");
      }
    }
    assert containers[..|containers|] == containers;
  }

  // ---------------------------------------------------------------------------
  // run

  /** What one pass of `run` did. */
  datatype Decision =
    | NoCandidate                 // nothing found: the loop ends (with the alert on the first pass)
    | HiddenFirst(node: NodeId)   // first pass: hidden, and the containers relaxed
    | HiddenLight(node: NodeId)   // later pass: lighter than the threshold, hidden
    | KeptHeavy(node: NodeId)     // later pass: at least the threshold, left alone

  /** The inline styles at the end, the passes made, and whether the alert was shown. */
  datatype RunResult = RunResult(styles: seq<string>, decisions: seq<Decision>, alerted: bool)

  function Then(d: Decision, rest: RunResult): RunResult
  {
    RunResult(rest.styles, [d] + rest.decisions, rest.alerted)
  }

  /** A candidate after the first pass is hidden when its subtree is lighter than the threshold. */
  predicate Light(t: Tree, c: NodeId)
    requires Wf(t)
  {
    Descendants(t, c) < WeightThreshold
  }

  /**
   `methodTwoHideElementMiddle()` on the page with the inline styles given:
   the hit test in the middle of the viewport, then the candidate search.
   */
  function MiddlePick(t: Tree, hit: seq<string> -> Option<NodeId>): (pick: seq<string> -> Option<NodeId>)
    requires Wf(t) && NamesNodes(t, hit)
    ensures NamesNodes(t, pick)
  {
    styles => MiddleCandidate(t, hit(styles))
  }

  /** What pass `i` decides about the candidate `c` it found. */
  function Decide(t: Tree, c: NodeId, i: nat): Decision
    requires Wf(t)
  {
    if i == 0 then HiddenFirst(c)
    else if Light(t, c) then HiddenLight(c)
    else KeptHeavy(c)
  }

  /** The node a decision hides, if any. */
  predicate Hides(d: Decision)
  {
    d.HiddenFirst? || d.HiddenLight?
  }

  /** The inline styles after pass `i` dealt with its candidate `c`. */
  function Step(t: Tree, styles: seq<string>, c: NodeId, i: nat): (r: seq<string>)
    requires Wf(t) && |styles| == |t.nodes| && c < |t.nodes|
    ensures |r| == |styles|
  {
    if !Hides(Decide(t, c, i)) then styles
    else
      var hidden := styles[c := HideText(styles[c])];
      if i == 0 then OverflowAuto(t, hidden) else hidden
  }

  /**
   One pass: a hidden candidate ends up hidden, no hidden node is un-hidden,
   and only the hidden candidate and, on the first pass, the root element and
   the body change.
   */
  lemma StepFacts(t: Tree, styles: seq<string>, c: NodeId, i: nat)
    requires Wf(t) && |styles| == |t.nodes| && c < |t.nodes|
    ensures var r := Step(t, styles, c, i);
      && (Hides(Decide(t, c, i)) ==> Hidden(r[c]))
      && (forall n :: 0 <= n < |styles| && Hidden(styles[n]) ==> Hidden(r[n]))
      && (forall n :: 0 <= n < |styles| && r[n] != styles[n] ==>
            (Hides(Decide(t, c, i)) && n == c) || (i == 0 && (n == t.documentElement || n == t.body)))
  {
    if Hides(Decide(t, c, i)) {
      var hidden := styles[c := HideText(styles[c])];
      HideHides(styles[c]);
      if i == 0 {
        ContainersOnly(t, hidden);
        forall n | 0 <= n < |styles| && Hidden(hidden[n])
          ensures Hidden(OverflowAuto(t, hidden)[n])
        {
          OverflowAutoKeepsHidden(t, hidden, n);
        }
      }
    }
  }

  /**
   The passes of `run` from pass `i` on, starting from the inline styles
   `styles`; `pick` gives the candidate a pass finds on the page as it then is.
   */
  function RunFrom(t: Tree, pick: seq<string> -> Option<NodeId>, styles: seq<string>, i: nat): (r: RunResult)
    requires Wf(t) && |styles| == |t.nodes| && NamesNodes(t, pick)
    ensures |r.styles| == |styles|
    decreases Passes - i
  {
    if i >= Passes then RunResult(styles, [], false)
    else
      match pick(styles)
      case None => RunResult(styles, [NoCandidate], i == 0)
      case Some(c) => Then(Decide(t, c, i), RunFrom(t, pick, Step(t, styles, c, i), i + 1))
  }

  /** The run from pass `i` on ends with the styles and the alert of `whole`. */
  ghost predicate Agrees(t: Tree, pick: seq<string> -> Option<NodeId>, styles: seq<string>, i: nat, whole: RunResult)
    requires Wf(t) && |styles| == |t.nodes| && NamesNodes(t, pick)
  {
    var r := RunFrom(t, pick, styles, i);
    r.styles == whole.styles && r.alerted == whole.alerted
  }

  /** One pass of the run that found candidate `c` goes on from the styles `Step` leaves. */
  lemma RunUnfold(t: Tree, pick: seq<string> -> Option<NodeId>, styles: seq<string>, i: nat, whole: RunResult)
    requires Wf(t) && |styles| == |t.nodes| && NamesNodes(t, pick) && i < Passes
    requires pick(styles).Some? && Agrees(t, pick, styles, i, whole)
    ensures Agrees(t, pick, Step(t, styles, pick(styles).value, i), i + 1, whole)
  {
  }

  /** After the last pass the run has nothing left to do: its styles are the current ones and no alert is shown. */
  lemma AgreesAtEnd(t: Tree, pick: seq<string> -> Option<NodeId>, styles: seq<string>, whole: RunResult)
    requires Wf(t) && |styles| == |t.nodes| && NamesNodes(t, pick)
    requires Agrees(t, pick, styles, Passes, whole)
    ensures styles == whole.styles && !whole.alerted
  {
  }

  /**
   One pass of `run`: look for a candidate with `search`; with none report the
   miss and change nothing; otherwise the first pass hides the candidate and
   relaxes the containers' overflow, a later pass hides it only when it is
   light. The ghost `whole` is the run this pass belongs to: after a hit the
   rest of the run goes on from the new styles, after a miss the run ends
   with them.
   */
  method Pass(page: Page, search: seq<string> -> Option<NodeId>, i: nat, ghost whole: RunResult) returns (missed: bool)
    requires page.Valid() && NamesNodes(page.tree, search) && i < Passes
    requires Agrees(page.tree, search, page.cssText, i, whole)
    modifies page
    ensures page.Valid()
    ensures missed <==> search(old(page.cssText)).None?
    ensures missed ==> page.cssText == old(page.cssText) == whole.styles && whole.alerted == (i == 0)
    ensures !missed ==> page.cssText == Step(page.tree, old(page.cssText), search(old(page.cssText)).value, i)
    ensures !missed ==> Agrees(page.tree, search, page.cssText, i + 1, whole)
  {
    var candidate := search(page.cssText);
    if candidate.None? {
      return true;
    }
    missed := false;
    RunUnfold(page.tree, search, page.cssText, i, whole);
    var c := candidate.value;
    if i != 0 {
      var weightThreshold := WeightThreshold;
      var candidateWeight := ElementWeight(page.tree, c, weightThreshold);
      if candidateWeight < weightThreshold {
        page.HideElement(c);
      }
    } else {
      page.HideElement(c);
      ContainersOverflowAuto(page);
    }
  }

  /**
   `run`: up to ten passes, each asking `search` for a candidate and dealing
   with it; the result is exactly the run `RunFrom` describes.
   */
  method Run(page: Page, search: seq<string> -> Option<NodeId>) returns (alerted: bool)
    requires page.Valid() && NamesNodes(page.tree, search)
    modifies page
    ensures page.Valid()
    ensures page.cssText == RunFrom(page.tree, search, old(page.cssText), 0).styles
    ensures alerted == RunFrom(page.tree, search, old(page.cssText), 0).alerted
  {
    alerted := false;
    ghost var whole := RunFrom(page.tree, search, page.cssText, 0);
    for i := 0 to Passes
      invariant page.Valid()
      invariant !alerted
      invariant Agrees(page.tree, search, page.cssText, i, whole)
      invariant i == Passes ==> page.cssText == whole.styles && !whole.alerted
    {
      var missed := Pass(page, search, i, whole);
      if missed {
        if i == 0 {
          alerted := true;
        }
        break;
      }
      if i + 1 == Passes {
        AgreesAtEnd(page.tree, search, page.cssText, whole);
      }
    }
  }

  /**
   `run()` with the corrected candidate search: `methodTwoHideElementMiddle`
   over the hit test in the middle of the viewport, with a null hit taken as no
   candidate. The script as written throws on a null hit instead (see
   `MiddleCandidateAsWritten`), so there it never reaches the alert.
   */
  method RunMiddle(page: Page, hit: seq<string> -> Option<NodeId>) returns (alerted: bool)
    requires page.Valid() && NamesNodes(page.tree, hit)
    modifies page
    ensures page.Valid()
    ensures page.cssText == RunFrom(page.tree, MiddlePick(page.tree, hit), old(page.cssText), 0).styles
    ensures alerted == RunFrom(page.tree, MiddlePick(page.tree, hit), old(page.cssText), 0).alerted
  {
    alerted := Run(page, MiddlePick(page.tree, hit));
  }

  // ---------------------------------------------------------------------------
  // properties of run

  /** `run` makes at most ten passes, one decision each. */
  lemma {:induction false} AtMostTenPasses(t: Tree, pick: seq<string> -> Option<NodeId>, styles: seq<string>, i: nat)
    requires Wf(t) && |styles| == |t.nodes| && NamesNodes(t, pick) && i <= Passes
    ensures |RunFrom(t, pick, styles, i).decisions| <= Passes - i
    decreases Passes - i
  {
    if i < Passes && pick(styles).Some? {
      var c := pick(styles).value;
      RunFromStep(t, pick, styles, i);
      AtMostTenPasses(t, pick, Step(t, styles, c, i), i + 1);
    }
  }

  /**
   The decisions `d` of a run with `n` passes left: a miss can only be the
   last one, at least one pass is made, and fewer than `n` passes end on a miss.
   */
  predicate MissesOnlyLast(d: seq<Decision>, n: nat)
  {
    && (forall k :: 0 <= k < |d| - 1 ==> !d[k].NoCandidate?)
    && (n > 0 ==> d != [])
    && (|d| < n ==> d != [] && d[|d| - 1].NoCandidate?)
  }

  /** A pass that found a candidate, in front of a run that keeps `MissesOnlyLast`, keeps it. */
  lemma MissesOnlyLastThen(d: Decision, rest: RunResult, n: nat)
    requires !d.NoCandidate? && MissesOnlyLast(rest.decisions, n)
    ensures MissesOnlyLast(Then(d, rest).decisions, n + 1)
  {
    var ds := Then(d, rest).decisions;
    forall k | 1 <= k < |ds| - 1
      ensures !ds[k].NoCandidate?
    {
      assert ds[k] == rest.decisions[k - 1];
    }
    if |ds| < n + 1 {
      assert ds[|ds| - 1] == rest.decisions[|rest.decisions| - 1];
    }
  }

  /**
   A missing candidate ends the loop: it can only be the last decision, and
   the loop stops before the tenth pass only because of one.
   */
  lemma {:induction false} MissEndsRun(t: Tree, pick: seq<string> -> Option<NodeId>, styles: seq<string>, i: nat)
    requires Wf(t) && |styles| == |t.nodes| && NamesNodes(t, pick) && i <= Passes
    ensures MissesOnlyLast(RunFrom(t, pick, styles, i).decisions, Passes - i)
    decreases Passes - i
  {
    if i < Passes && pick(styles).Some? {
      var c := pick(styles).value;
      var next := Step(t, styles, c, i);
      RunFromStep(t, pick, styles, i);
      MissEndsRun(t, pick, next, i + 1);
      MissesOnlyLastThen(Decide(t, c, i), RunFrom(t, pick, next, i + 1), Passes - (i + 1));
    }
  }


  /** The alert is shown exactly when the very first pass finds no candidate. */
  lemma AlertOnFirstMissOnly(t: Tree, pick: seq<string> -> Option<NodeId>, styles: seq<string>)
    requires Wf(t) && |styles| == |t.nodes| && NamesNodes(t, pick)
    ensures RunFrom(t, pick, styles, 0).alerted <==> pick(styles).None?
    ensures var d := RunFrom(t, pick, styles, 0).decisions;
      d != [] && (d[0].NoCandidate? <==> RunFrom(t, pick, styles, 0).alerted)
  {
    if pick(styles).Some? {
      var c := pick(styles).value;
      NoLaterAlert(t, pick, Step(t, styles, c, 0), 1);
    }
  }

  /** A miss after the first pass ends the loop silently. */
  lemma {:induction false} NoLaterAlert(t: Tree, pick: seq<string> -> Option<NodeId>, styles: seq<string>, i: nat)
    requires Wf(t) && |styles| == |t.nodes| && NamesNodes(t, pick) && 0 < i <= Passes
    ensures !RunFrom(t, pick, styles, i).alerted
    decreases Passes - i
  {
    if i < Passes && pick(styles).Some? {
      var c := pick(styles).value;
      RunFromStep(t, pick, styles, i);
      NoLaterAlert(t, pick, Step(t, styles, c, i), i + 1);
    }
  }

  /**
   The policy of one pass: only the first pass hides unconditionally, a later
   candidate is hidden exactly when it is light, and a heavy one is kept.
   */
  predicate FollowsPolicy(t: Tree, d: Decision, first: bool)
    requires Wf(t)
  {
    && (d.HiddenFirst? <==> first && !d.NoCandidate?)
    && (d.HiddenLight? ==> Light(t, d.node))
    && (d.KeptHeavy? ==> !Light(t, d.node))
  }

  /** The decisions of the passes from pass `i` on follow the policy. */
  predicate AllFollowPolicy(t: Tree, d: seq<Decision>, i: nat)
    requires Wf(t)
  {
    forall k :: 0 <= k < |d| ==> FollowsPolicy(t, d[k], i == 0 && k == 0)
  }

  /** A pass that follows the policy, in front of passes that do, gives passes that do. */
  lemma PolicyThen(t: Tree, d: Decision, rest: RunResult, i: nat)
    requires Wf(t) && FollowsPolicy(t, d, i == 0) && AllFollowPolicy(t, rest.decisions, i + 1)
    ensures AllFollowPolicy(t, Then(d, rest).decisions, i)
  {
    var ds := Then(d, rest).decisions;
    forall k | 1 <= k < |ds|
      ensures FollowsPolicy(t, ds[k], i == 0 && k == 0)
    {
      assert ds[k] == rest.decisions[k - 1];
      assert FollowsPolicy(t, rest.decisions[k - 1], i + 1 == 0 && k - 1 == 0);
    }
  }

  /** Every pass of `run` follows the policy. */
  lemma {:induction false} DecisionsFollowPolicy(t: Tree, pick: seq<string> -> Option<NodeId>, styles: seq<string>, i: nat)
    requires Wf(t) && |styles| == |t.nodes| && NamesNodes(t, pick) && i <= Passes
    ensures AllFollowPolicy(t, RunFrom(t, pick, styles, i).decisions, i)
    decreases Passes - i
  {
    if i < Passes && pick(styles).Some? {
      var c := pick(styles).value;
      var next := Step(t, styles, c, i);
      RunFromStep(t, pick, styles, i);
      DecisionsFollowPolicy(t, pick, next, i + 1);
      PolicyThen(t, Decide(t, c, i), RunFrom(t, pick, next, i + 1), i);
    }
  }


  /** No pass ever un-hides a node. */
  lemma {:induction false} NeverUnhides(t: Tree, pick: seq<string> -> Option<NodeId>, styles: seq<string>, i: nat, n: NodeId)
    requires Wf(t) && |styles| == |t.nodes| && NamesNodes(t, pick) && i <= Passes
    requires n < |styles| && Hidden(styles[n])
    ensures Hidden(RunFrom(t, pick, styles, i).styles[n])
    decreases Passes - i
  {
    if i < Passes && pick(styles).Some? {
      var c := pick(styles).value;
      StepFacts(t, styles, c, i);
      RunFromStep(t, pick, styles, i);
      NeverUnhides(t, pick, Step(t, styles, c, i), i + 1, n);
    }
  }

  /** Node `n` of the page is hidden by its inline style. */
  predicate HiddenIn(styles: seq<string>, n: NodeId)
  {
    n < |styles| && Hidden(styles[n])
  }

  /** Every candidate hidden by one of the passes is hidden at the end. */
  predicate HiddenAtEnd(r: RunResult)
  {
    forall k :: 0 <= k < |r.decisions| && Hides(r.decisions[k]) ==> HiddenIn(r.styles, r.decisions[k].node)
  }

  /** A pass whose hidden candidate is still hidden at the end keeps `HiddenAtEnd`. */
  lemma HiddenAtEndThen(d: Decision, rest: RunResult)
    requires HiddenAtEnd(rest)
    requires Hides(d) ==> HiddenIn(rest.styles, d.node)
    ensures HiddenAtEnd(Then(d, rest))
  {
    var r := Then(d, rest);
    forall k | 0 <= k < |r.decisions| && Hides(r.decisions[k])
      ensures HiddenIn(r.styles, r.decisions[k].node)
    {
      if k > 0 {
        assert r.decisions[k] == rest.decisions[k - 1];
      }
    }
  }

  /** A pass that finds candidate `c` records its decision and goes on from the styles `Step` leaves. */
  lemma RunFromStep(t: Tree, pick: seq<string> -> Option<NodeId>, styles: seq<string>, i: nat)
    requires Wf(t) && |styles| == |t.nodes| && NamesNodes(t, pick) && i < Passes && pick(styles).Some?
    ensures var c := pick(styles).value;
      RunFrom(t, pick, styles, i) == Then(Decide(t, c, i), RunFrom(t, pick, Step(t, styles, c, i), i + 1))
  {
  }

  /** The candidate a pass hides is still hidden at the end of the run that follows. */
  lemma HiddenAfterPass(t: Tree, pick: seq<string> -> Option<NodeId>, styles: seq<string>, i: nat)
    requires Wf(t) && |styles| == |t.nodes| && NamesNodes(t, pick) && i < Passes && pick(styles).Some?
    ensures var c := pick(styles).value;
      Hides(Decide(t, c, i)) ==> HiddenIn(RunFrom(t, pick, Step(t, styles, c, i), i + 1).styles, c)
  {
    var c := pick(styles).value;
    if Hides(Decide(t, c, i)) {
      StepFacts(t, styles, c, i);
      NeverUnhides(t, pick, Step(t, styles, c, i), i + 1, c);
    }
  }

  /** Every candidate a pass hides is still hidden when `run` returns. */
  lemma {:induction false} HiddenCandidatesStayHidden(t: Tree, pick: seq<string> -> Option<NodeId>, styles: seq<string>, i: nat)
    requires Wf(t) && |styles| == |t.nodes| && NamesNodes(t, pick) && i <= Passes
    ensures HiddenAtEnd(RunFrom(t, pick, styles, i))
    decreases Passes - i
  {
    if i < Passes && pick(styles).Some? {
      var c := pick(styles).value;
      var next := Step(t, styles, c, i);
      RunFromStep(t, pick, styles, i);
      HiddenCandidatesStayHidden(t, pick, next, i + 1);
      HiddenAfterPass(t, pick, styles, i);
      HiddenAtEndThen(Decide(t, c, i), RunFrom(t, pick, next, i + 1));
    }
  }

  /** Node `n` is hidden by one of the passes. */
  predicate HiddenByRun(d: seq<Decision>, n: NodeId)
  {
    exists k :: 0 <= k < |d| && Hides(d[k]) && d[k].node == n
  }

  /**
   From `styles` to the end of the run `r` starting at pass `i`, only hidden
   candidates changed and, when the first pass hid something, the root element
   and the body.
   */
  predicate ChangedOnlyBy(t: Tree, styles: seq<string>, r: RunResult, i: nat)
    requires |r.styles| == |styles|
  {
    forall n :: 0 <= n < |styles| && r.styles[n] != styles[n] ==>
      HiddenByRun(r.decisions, n)
      || (i == 0 && r.decisions != [] && r.decisions[0].HiddenFirst? && (n == t.documentElement || n == t.body))
  }

  /**
   A pass that changed only its hidden candidate and, on the first pass, the
   root element and the body keeps `ChangedOnlyBy` for the run it starts.
   */
  lemma FrameThen(t: Tree, styles: seq<string>, next: seq<string>, d: Decision, rest: RunResult, i: nat)
    requires |styles| == |next| == |rest.styles| && !d.NoCandidate?
    requires ChangedOnlyBy(t, next, rest, i + 1)
    requires i == 0 ==> d.HiddenFirst?
    requires forall n :: 0 <= n < |styles| && next[n] != styles[n] ==>
      (Hides(d) && n == d.node) || (i == 0 && (n == t.documentElement || n == t.body))
    ensures ChangedOnlyBy(t, styles, Then(d, rest), i)
  {
    var r := Then(d, rest);
    forall n | 0 <= n < |styles| && r.styles[n] != styles[n]
      ensures HiddenByRun(r.decisions, n)
        || (i == 0 && r.decisions != [] && r.decisions[0].HiddenFirst? && (n == t.documentElement || n == t.body))
    {
      if rest.styles[n] != next[n] {
        var k :| 0 <= k < |rest.decisions| && Hides(rest.decisions[k]) && rest.decisions[k].node == n;
        assert r.decisions[k + 1] == rest.decisions[k];
      } else if Hides(d) && n == d.node {
        assert r.decisions[0] == d;
      }
    }
  }

  /**
   `run` changes only the inline styles of the candidates it hides and, when
   the first pass hid something, of the root element and the body.
   */
  lemma {:induction false} RunFrame(t: Tree, pick: seq<string> -> Option<NodeId>, styles: seq<string>, i: nat)
    requires Wf(t) && |styles| == |t.nodes| && NamesNodes(t, pick) && i <= Passes
    ensures ChangedOnlyBy(t, styles, RunFrom(t, pick, styles, i), i)
    decreases Passes - i
  {
    if i < Passes && pick(styles).Some? {
      var c := pick(styles).value;
      var next := Step(t, styles, c, i);
      RunFrame(t, pick, next, i + 1);
      StepFacts(t, styles, c, i);
      FrameThen(t, styles, next, Decide(t, c, i), RunFrom(t, pick, next, i + 1), i);
    }
  }

  /** Every node the search returns, whatever the page's styles, has the property `ok`. */
  ghost predicate SearchGives(pick: seq<string> -> Option<NodeId>, ok: NodeId -> bool)
  {
    forall styles :: pick(styles).Some? ==> ok(pick(styles).value)
  }

  /** Every decision about a node is about a node with the property `ok`. */
  predicate AllDecided(d: seq<Decision>, ok: NodeId -> bool)
  {
    forall k :: 0 <= k < |d| && !d[k].NoCandidate? ==> ok(d[k].node)
  }

  /** A pass about a node with the property, in front of passes about such nodes, gives passes about such nodes. */
  lemma DecidedThen(d: Decision, rest: RunResult, ok: NodeId -> bool)
    requires (!d.NoCandidate? ==> ok(d.node)) && AllDecided(rest.decisions, ok)
    ensures AllDecided(Then(d, rest).decisions, ok)
  {
    var ds := Then(d, rest).decisions;
    forall k | 1 <= k < |ds| && !ds[k].NoCandidate?
      ensures ok(ds[k].node)
    {
      assert ds[k] == rest.decisions[k - 1];
    }
  }

  /**
   `run` only ever deals with nodes the candidate search returned: whatever
   holds of every node the search can return holds of every node decided on.
   */
  lemma {:induction false} DecisionsArePicks(t: Tree, pick: seq<string> -> Option<NodeId>, styles: seq<string>, i: nat, ok: NodeId -> bool)
    requires Wf(t) && |styles| == |t.nodes| && NamesNodes(t, pick) && i <= Passes
    requires SearchGives(pick, ok)
    ensures AllDecided(RunFrom(t, pick, styles, i).decisions, ok)
    decreases Passes - i
  {
    if i < Passes && pick(styles).Some? {
      var c := pick(styles).value;
      var next := Step(t, styles, c, i);
      RunFromStep(t, pick, styles, i);
      DecisionsArePicks(t, pick, next, i + 1, ok);
      DecidedThen(Decide(t, c, i), RunFrom(t, pick, next, i + 1), ok);
    }
  }

  /**
   With `methodTwoHideElementMiddle` as the candidate search, every node `run`
   hides or keeps has a positive z-index.
   */
  lemma MiddleRunTouchesOverlaysOnly(t: Tree, hit: seq<string> -> Option<NodeId>, styles: seq<string>)
    requires Wf(t) && |styles| == |t.nodes| && NamesNodes(t, hit)
    ensures var d := RunFrom(t, MiddlePick(t, hit), styles, 0).decisions;
      forall k :: 0 <= k < |d| && !d[k].NoCandidate? ==> PositiveZIndex(t, d[k].node)
  {
    var pick := MiddlePick(t, hit);
    var ok := PositiveZ(t);
    forall s | pick(s).Some?
      ensures ok(pick(s).value)
    {
      assert pick(s) == MiddleCandidate(t, hit(s));
      MiddleCandidateOutermost(t, hit(s));
    }
    DecisionsArePicks(t, pick, styles, 0, ok);
    var d := RunFrom(t, pick, styles, 0).decisions;
    forall k | 0 <= k < |d| && !d[k].NoCandidate?
      ensures PositiveZIndex(t, d[k].node)
    {
      assert ok(d[k].node);
    }
  }
}
