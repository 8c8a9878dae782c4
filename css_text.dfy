/**
 The inline style text of an element (`element.style.cssText`) and the
 override-safe append done by `styleImportant` and `hideElement`.

 A style text is read as a list of declarations separated by `;`. Clearing a
 property (`element.style[prop] = ''`) drops the declarations that name it;
 the browser's re-serialisation of what is left is not modelled, the remaining
 text is kept as it was.
 */
module CssText {

  /** The declaration `styleImportant` appends: `prop: value !important`. */
  function Decl(prop: string, value: string): string
  {
    prop + ": " + value + " !important"
  }

  /** What `hideElement` writes. */
  const HideDecl: string := Decl("display", "none")

  /** A property name `styleImportant` is called with. */
  predicate PropertyName(prop: string)
  {
    prop != [] && prop[0] != ' ' && ';' !in prop
  }

  /** The `;`-separated pieces of a style text; a text ending in `;` ends with an empty piece. */
  function Split(s: string): (r: seq<string>)
    ensures |r| >= 1
    decreases |s|
  {
    if s == [] then [""]
    else
      var rest := Split(s[1..]);
      if s[0] == ';' then [""] + rest else [[s[0]] + rest[0]] + rest[1..]
  }

  /** The pieces put back together with `;` between them. */
  function Join(segs: seq<string>): string
    decreases |segs|
  {
    if segs == [] then ""
    else if |segs| == 1 then segs[0]
    else segs[0] + ";" + Join(segs[1..])
  }

  predicate NoSeparator(segs: seq<string>)
  {
    forall k :: 0 <= k < |segs| ==> ';' !in segs[k]
  }

  function LStrip(s: string): string
  {
    if s != [] && s[0] == ' ' then LStrip(s[1..]) else s
  }

  /** The declaration `seg` names the property `prop` (spaces around the name allowed). */
  predicate NameIs(seg: string, prop: string)
  {
    var s := LStrip(seg);
    |s| > |prop| && s[..|prop|] == prop &&
    var rest := LStrip(s[|prop|..]);
    rest != [] && rest[0] == ':'
  }

  /** The declarations that do not name `prop`, in their order. */
  function Drop(segs: seq<string>, prop: string): (r: seq<string>)
    ensures |r| <= |segs|
  {
    if segs == [] then []
    else (if NameIs(segs[0], prop) then [] else [segs[0]]) + Drop(segs[1..], prop)
  }

  /** The kept declarations are exactly those that do not name `prop`. */
  lemma {:induction false} DropMembers(segs: seq<string>, prop: string)
    ensures forall x :: x in Drop(segs, prop) <==> x in segs && !NameIs(x, prop)
    decreases |segs|
  {
    if segs != [] {
      DropMembers(segs[1..], prop);
      assert segs == [segs[0]] + segs[1..];
    }
  }

  /** The text after `element.style[prop] = ''`: the declarations that do not name `prop`, rejoined. */
  function WithoutProperty(s: string, prop: string): string
  {
    Join(Drop(Split(s), prop))
  }

  /** Clearing `prop` leaves no declaration of it and keeps every other non-empty declaration. */
  lemma WithoutPropertyClears(s: string, prop: string)
    ensures forall x :: x in Split(WithoutProperty(s, prop)) ==> !NameIs(x, prop)
    ensures forall x :: x in Split(s) && x != "" && !NameIs(x, prop) ==> x in Split(WithoutProperty(s, prop))
  {
    var ds := Drop(Split(s), prop);
    DropMembers(Split(s), prop);
    if ds == [] {
      assert Split("") == [""];
      assert !NameIs("", prop);
    } else {
      KeptDeclarations(s, prop);
      SplitJoin(ds);
    }
  }

  /** Clearing a property that no declaration names leaves the text exactly as it was. */
  lemma ClearAbsentProperty(s: string, prop: string)
    requires forall x :: x in Split(s) ==> !NameIs(x, prop)
    ensures WithoutProperty(s, prop) == s
  {
    DropNothing(Split(s), prop);
    JoinSplit(s);
  }

  /** A separator is added only to a non-empty text that does not already end in `;`. */
  function Separated(c: string): string
  {
    if |c| > 0 && c[|c| - 1] != ';' then c + ";" else c
  }

  /** `styleImportant(element, prop, value)` on the element's style text. */
  function StyleImportantText(s: string, prop: string, value: string): string
  {
    Separated(WithoutProperty(s, prop)) + Decl(prop, value) + ";"
  }

  /** `hideElement`: `styleImportant(element, 'display', 'none')`. */
  function HideText(s: string): string
  {
    StyleImportantText(s, "display", "none")
  }

  /** The element is hidden by an inline `display: none !important` declaration. */
  predicate Hidden(s: string)
  {
    HideDecl in Split(s)
  }

  function TrimTrailingEmpty(ds: seq<string>): (r: seq<string>)
  {
    if |ds| > 0 && ds[|ds| - 1] == "" then ds[..|ds| - 1] else ds
  }

  // ---------------------------------------------------------------------------
  // Splitting and joining

  lemma {:induction false} SplitNoSeparator(x: string)
    requires ';' !in x
    ensures Split(x) == [x]
    decreases |x|
  {
    if x != [] {
      assert x[0] in x;
      assert forall c :: c in x[1..] ==> c in x;
      SplitNoSeparator(x[1..]);
      assert x == [x[0]] + x[1..];
    }
  }

  /** Splitting at a `;` splits the two sides independently. */
  lemma {:induction false} SplitConcat(a: string, b: string)
    ensures Split(a + ";" + b) == Split(a) + Split(b)
    decreases |a|
  {
    var s := a + ";" + b;
    if a == [] {
      assert s == ";" + b;
      assert s[1..] == b;
    } else {
      assert s[0] == a[0];
      assert s[1..] == a[1..] + ";" + b;
      SplitConcat(a[1..], b);
    }
  }

  lemma {:induction false} JoinSplit(s: string)
    ensures Join(Split(s)) == s
    decreases |s|
  {
    if s != [] {
      JoinSplit(s[1..]);
      var rest := Split(s[1..]);
      if s[0] == ';' {
        assert ([""] + rest)[1..] == rest;
      } else {
        var r := [[s[0]] + rest[0]] + rest[1..];
        assert r[1..] == rest[1..];
        if |rest| > 1 {
          assert rest[1..][1..] == rest[2..];
          assert Join(rest) == rest[0] + ";" + Join(rest[1..]);
        }
      }
    }
  }

  /** Joining pieces that contain no `;` and splitting again gives the pieces back. */
  lemma {:induction false} SplitJoin(segs: seq<string>)
    requires |segs| >= 1 && NoSeparator(segs)
    ensures Split(Join(segs)) == segs
    decreases |segs|
  {
    if |segs| == 1 {
      SplitNoSeparator(segs[0]);
    } else {
      SplitJoin(segs[1..]);
      SplitConcat(segs[0], Join(segs[1..]));
      SplitNoSeparator(segs[0]);
    }
  }

  lemma {:induction false} JoinSnoc(xs: seq<string>, y: string)
    requires |xs| >= 1
    ensures Join(xs + [y]) == Join(xs) + ";" + y
    decreases |xs|
  {
    if |xs| == 1 {
      assert (xs + [y])[1..] == [y];
    } else {
      assert (xs + [y])[1..] == xs[1..] + [y];
      JoinSnoc(xs[1..], y);
    }
  }

  lemma {:induction false} DropConcat(a: seq<string>, b: seq<string>, prop: string)
    ensures Drop(a + b, prop) == Drop(a, prop) + Drop(b, prop)
    decreases |a|
  {
    if a == [] {
      assert a + b == b;
    } else {
      assert (a + b)[1..] == a[1..] + b;
      DropConcat(a[1..], b, prop);
    }
  }

  lemma {:induction false} DropNothing(segs: seq<string>, prop: string)
    requires forall x :: x in segs ==> !NameIs(x, prop)
    ensures Drop(segs, prop) == segs
    decreases |segs|
  {
    if segs != [] {
      DropNothing(segs[1..], prop);
    }
  }

  lemma DeclNamesProperty(prop: string, value: string)
    requires PropertyName(prop)
    ensures NameIs(Decl(prop, value), prop)
  {
    var d := Decl(prop, value);
    assert d == prop + (": " + value + " !important");
    assert LStrip(d) == d;
    assert d[..|prop|] == prop;
    var rest := d[|prop|..];
    assert rest == ": " + value + " !important";
    assert LStrip(rest) == rest;
  }

  /** The separated text equals the kept declarations (trailing empty piece dropped) rejoined, plus `;`. */
  lemma SeparatedJoin(ds: seq<string>)
    requires NoSeparator(ds)
    ensures var tr := TrimTrailingEmpty(ds);
      Separated(Join(ds)) == if tr == [] then "" else Join(tr) + ";"
  {
    var tr := TrimTrailingEmpty(ds);
    if ds == [] {
    } else if ds[|ds| - 1] == "" {
      if tr != [] {
        assert ds == tr + [""];
        JoinSnoc(tr, "");
      }
    } else {
      var last := ds[|ds| - 1];
      var j := Join(ds);
      if |ds| == 1 {
        assert j == last;
      } else {
        assert ds == ds[..|ds| - 1] + [last];
        JoinSnoc(ds[..|ds| - 1], last);
      }
      assert j[|j| - 1] == last[|last| - 1];
      assert last[|last| - 1] in last;
    }
  }

  /** A declaration and its closing `;` split into the declaration and an empty piece. */
  lemma SplitClosed(d: string)
    requires ';' !in d
    ensures Split(d + ";") == [d, ""]
  {
    SplitNoSeparator(d);
    SplitConcat(d, "");
    assert d + ";" + "" == d + ";";
  }

  /** Appending `d;` to joined non-empty pieces and a `;` adds `d` and an empty piece. */
  lemma AppendAfter(tr: seq<string>, d: string)
    requires |tr| >= 1 && NoSeparator(tr) && ';' !in d
    ensures Split(Join(tr) + ";" + d + ";") == tr + [d, ""]
  {
    SplitJoin(tr);
    SplitClosed(d);
    assert Join(tr) + ";" + d + ";" == Join(tr) + ";" + (d + ";");
    SplitConcat(Join(tr), d + ";");
  }

  /** Appending `d;` after a separator to joined pieces gives the pieces (trailing empty one dropped), `d` and an empty piece. */
  lemma AppendDeclaration(ds: seq<string>, d: string)
    requires NoSeparator(ds) && ';' !in d
    ensures Split(Separated(Join(ds)) + d + ";") == TrimTrailingEmpty(ds) + [d, ""]
  {
    var tr := TrimTrailingEmpty(ds);
    SeparatedJoin(ds);
    if tr == [] {
      SplitClosed(d);
      assert Separated(Join(ds)) + d + ";" == d + ";";
    } else {
      assert NoSeparator(tr) by {
        forall k | 0 <= k < |tr|
          ensures ';' !in tr[k]
        {
          assert tr[k] == ds[k];
        }
      }
      AppendAfter(tr, d);
    }
  }

  /**
   The declarations of the new text are the old ones that do not name `prop`,
   in their order, followed by the appended `prop: value !important` and the
   empty piece after its closing `;`: nothing is lost, and no empty
   declaration is introduced before the new one.
   */
  lemma StyleImportantDeclarations(s: string, prop: string, value: string)
    requires NoSeparator([Decl(prop, value)])
    ensures Split(StyleImportantText(s, prop, value)) == TrimTrailingEmpty(Drop(Split(s), prop)) + [Decl(prop, value), ""]
  {
    var d := Decl(prop, value);
    KeptDeclarations(s, prop);
    assert ';' !in d by { assert d == [d][0]; }
    AppendDeclaration(Drop(Split(s), prop), d);
  }

  // ---------------------------------------------------------------------------
  // Properties of the append

  /** No piece of a split text contains the separator. */
  lemma {:induction false} SplitHasNoSeparator(s: string)
    ensures NoSeparator(Split(s))
    decreases |s|
  {
    if s != [] {
      SplitHasNoSeparator(s[1..]);
      var rest := Split(s[1..]);
      if s[0] != ';' {
        var r := [[s[0]] + rest[0]] + rest[1..];
        forall k | 0 <= k < |r| ensures ';' !in r[k] {
          if k == 0 {
            assert ';' !in rest[0];
          } else {
            assert r[k] == rest[k];
          }
        }
      } else {
        var r := [""] + rest;
        forall k | 0 <= k < |r| ensures ';' !in r[k] {
          if k > 0 {
            assert r[k] == rest[k - 1];
          }
        }
      }
    }
  }

  lemma DropAppended(tr: seq<string>, d: string, prop: string)
    requires NameIs(d, prop)
    requires forall x :: x in tr ==> !NameIs(x, prop)
    ensures Drop(tr + [d, ""], prop) == tr + [""]
  {
    DropNothing(tr, prop);
    DropConcat(tr, [d, ""], prop);
    assert [d, ""] == [d] + [""];
    DropConcat([d], [""], prop);
    assert Drop([d], prop) == [];
    DropEmptyPiece(prop);
  }

  lemma DropEmptyPiece(prop: string)
    ensures Drop([""], prop) == [""]
  {
    assert !NameIs("", prop);
  }

  /** The declarations kept by clearing `prop` contain no `;` and do not name `prop`. */
  lemma KeptDeclarations(s: string, prop: string)
    ensures NoSeparator(Drop(Split(s), prop))
    ensures forall x :: x in TrimTrailingEmpty(Drop(Split(s), prop)) ==> !NameIs(x, prop)
  {
    var ds := Drop(Split(s), prop);
    var ss := Split(s);
    SplitHasNoSeparator(s);
    DropMembers(ss, prop);
    forall k | 0 <= k < |ds| ensures ';' !in ds[k] {
      assert ds[k] in ss;
      var i :| 0 <= i < |ss| && ss[i] == ds[k];
    }
    assert forall x :: x in TrimTrailingEmpty(ds) ==> x in ds;
  }

  /** Clearing `prop` again after `styleImportant` leaves exactly the separated text it appended to. */
  lemma ClearAfterStyleImportant(s: string, prop: string, value: string)
    requires PropertyName(prop) && ';' !in value
    ensures WithoutProperty(StyleImportantText(s, prop, value), prop) == Separated(WithoutProperty(s, prop))
  {
    var d := Decl(prop, value);
    assert NoSeparator([d]);
    var r := StyleImportantText(s, prop, value);
    var ds := Drop(Split(s), prop);
    var tr := TrimTrailingEmpty(ds);
    KeptDeclarations(s, prop);
    DeclNamesProperty(prop, value);
    DropAppended(tr, d, prop);
    StyleImportantDeclarations(s, prop, value);
    var left := Drop(Split(r), prop);
    assert left == tr + [""];
    assert WithoutProperty(r, prop) == Join(left);
    SeparatedJoin(ds);
    assert Separated(WithoutProperty(s, prop)) == if tr == [] then "" else Join(tr) + ";";
    if tr != [] {
      JoinSnoc(tr, "");
    }
  }

  /** Applying `styleImportant` twice with the same arguments is the same as applying it once. */
  lemma StyleImportantIdempotent(s: string, prop: string, value: string)
    requires PropertyName(prop) && ';' !in value
    ensures StyleImportantText(StyleImportantText(s, prop, value), prop, value) == StyleImportantText(s, prop, value)
  {
    ClearAfterStyleImportant(s, prop, value);
    var c := WithoutProperty(s, prop);
    assert Separated(Separated(c)) == Separated(c);
  }

  lemma HideIdempotent(s: string)
    ensures HideText(HideText(s)) == HideText(s)
  {
    StyleImportantIdempotent(s, "display", "none");
  }

  lemma HideHides(s: string)
    ensures Hidden(HideText(s))
  {
    assert NoSeparator([HideDecl]);
    StyleImportantDeclarations(s, "display", "none");
    assert HideDecl in Split(HideText(s));
  }

  /** Dropping a trailing empty piece keeps every non-empty piece. */
  lemma TrimKeeps(ds: seq<string>, x: string)
    requires x in ds && x != ""
    ensures x in TrimTrailingEmpty(ds)
  {
    var k :| 0 <= k < |ds| && ds[k] == x;
    assert k < |TrimTrailingEmpty(ds)| && TrimTrailingEmpty(ds)[k] == x;
  }

  /** A non-empty declaration that does not name `prop` survives `styleImportant` of `prop`. */
  lemma StyleImportantKeeps(s: string, prop: string, value: string, x: string)
    requires x in Split(s) && x != "" && !NameIs(x, prop) && ';' !in prop + value
    ensures x in Split(StyleImportantText(s, prop, value))
  {
    var ds := Drop(Split(s), prop);
    DropMembers(Split(s), prop);
    TrimKeeps(ds, x);
    var d := Decl(prop, value);
    assert NoSeparator([d]);
    StyleImportantDeclarations(s, prop, value);
    var tail := [d, ""];
    assert x in TrimTrailingEmpty(ds) + tail;
  }

  /** Appending a declaration of another property keeps an element hidden. */
  lemma StyleImportantKeepsHidden(s: string, prop: string, value: string)
    requires Hidden(s) && !NameIs(HideDecl, prop) && ';' !in prop + value
    ensures Hidden(StyleImportantText(s, prop, value))
  {
    assert HideDecl != "" by { assert |HideDecl| > 0; }
    StyleImportantKeeps(s, prop, value, HideDecl);
  }

  lemma OverflowKeepsHidden(s: string)
    requires Hidden(s)
    ensures Hidden(StyleImportantText(s, "overflow", "auto"))
  {
    assert LStrip(HideDecl) == HideDecl;
    assert HideDecl[..8] != "overflow" by { assert HideDecl[0] != "overflow"[0]; }
    StyleImportantKeepsHidden(s, "overflow", "auto");
  }
}
