/**
 * The style buttons and the reset button.
 *
 * A style button wraps the selected text in a new span whose class is
 * `ansi-<code>` and whose only child is that text as plain text (whatever
 * formatting the selection held is gone), then selects the span's contents.
 * The reset button replaces the whole region by its text.
 *
 * Both are given as functions from the document and the selection to the
 * new document and selection.
 */
module Styling {
  import opened Dom
  import opened AnsiClass
  import Sanitizer
  import Encoder

  datatype Edit = Edit(content: seq<Node>, selection: Selection)

  /** A range whose two ends lie in the same node, in order, at boundaries of the document. */
  predicate InOneNode(root: seq<Node>, sel: Selection)
  {
    sel.Range? && sel.start.container == sel.end.container
    && sel.start.offset <= sel.end.offset && ValidBoundary(root, sel.end)
  }

  /** The selection is a range inside a text node. */
  predicate InText(root: seq<Node>, sel: Selection)
    requires InOneNode(root, sel)
  {
    sel.start.container != [] && At(root, sel.start.container).Text?
  }

  /**
   * `selection.toString()` of a range in one node: the characters between the
   * offsets of a text node, or the text of the children between the offsets
   * of an element (or of the region itself).
   */
  function SelectedText(root: seq<Node>, sel: Selection): string
    requires InOneNode(root, sel)
  {
    var c := sel.start.container;
    if InText(root, sel) then At(root, c).data[sel.start.offset..sel.end.offset]
    else
      RangeInChildren(root, sel);
      TextContentOf(ChildrenAt(root, c)[sel.start.offset..sel.end.offset])
  }

  /** A range in an element (or the region) lies within its child list. */
  lemma RangeInChildren(root: seq<Node>, sel: Selection)
    requires InOneNode(root, sel) && !InText(root, sel)
    ensures IsContainer(root, sel.start.container)
    ensures sel.end.offset <= |ChildrenAt(root, sel.start.container)|
  {
    if sel.start.container != [] {
      ChildrenOfElement(root, sel.start.container);
    }
  }

  /** The span a button creates for text t: class `ansi-<code>`, one text child. */
  function StyleSpan(code: string, t: string): Node
  {
    Element(SPAN, "ansi-" + code, [Text(t)])
  }

  /**
   * `applyStyle(code)`. With no range, or when the selected text is empty,
   * nothing happens. Otherwise the selected content is deleted and the span
   * is inserted at the start of the range: inside a text node the node is
   * split around it (both halves stay, even when empty); inside an element it
   * takes the place of the deleted children. The new selection spans the
   * span's contents.
   */
  function ApplyStyle(root: seq<Node>, sel: Selection, code: string): (r: Edit)
    requires sel.Range? ==> InOneNode(root, sel)
    ensures sel.NoRange? || SelectedText(root, sel) == "" ==> r == Edit(root, sel)
  {
    if sel.NoRange? then Edit(root, sel)
    else
      var t := SelectedText(root, sel);
      if t == "" then Edit(root, sel)
      else
        var c := sel.start.container;
        var a := sel.start.offset;
        var b := sel.end.offset;
        var span := StyleSpan(code, t);
        if InText(root, sel) then
          ParentIsContainer(root, c);
          var pp := Parent(c);
          var k := Last(c);
          var s := ChildrenAt(root, pp);
          var d := At(root, c).data;
          Edit(WithChildrenAt(root, pp, s[..k] + [Text(d[..a]), span, Text(d[b..])] + s[k + 1..]),
               Range(Boundary(pp + [k + 1], 0), Boundary(pp + [k + 1], 1)))
        else
          RangeInChildren(root, sel);
          var s := ChildrenAt(root, c);
          Edit(WithChildrenAt(root, c, s[..a] + [span] + s[b..]),
               Range(Boundary(c + [a], 0), Boundary(c + [a], 1)))
  }

  /**
   * `resetAll`: the region's textContent is written back, which leaves one
   * text node, or none at all when the text is empty. Removing the old
   * children moves a selection inside the region to its start.
   */
  function ResetAll(root: seq<Node>, sel: Selection): (r: Edit)
    ensures |r.content| <= 1
    ensures forall i :: 0 <= i < |r.content| ==> r.content[i].Text?
    ensures r.content == [] <==> TextContentOf(root) == ""
    ensures sel.Range? ==> r.selection == Caret(Boundary([], 0))
    ensures sel.NoRange? ==> r.selection == NoRange
  {
    var t := TextContentOf(root);
    Edit(if t == "" then [] else [Text(t)], if sel.NoRange? then NoRange else Caret(Boundary([], 0)))
  }

  // ---------------------------------------------------------------------------
  // applyStyle

  /** The list a text-node split leaves, and its text. */
  lemma SplitText(s: seq<Node>, k: nat, d: string, a: nat, b: nat, span: Node)
    requires k < |s| && s[k] == Text(d) && a <= b <= |d| && TextContent(span) == d[a..b]
    ensures TextContentOf(s[..k] + [Text(d[..a]), span, Text(d[b..])] + s[k + 1..]) == TextContentOf(s)
  {
    var mid := [Text(d[..a]), span, Text(d[b..])];
    TextContentOfSplice(s, k, mid, k + 1);
    assert TextContentOf(mid) == d by {
      assert mid == [Text(d[..a])] + [span] + [Text(d[b..])];
      TextContentOfAppend([Text(d[..a])] + [span], [Text(d[b..])]);
      TextContentOfAppend([Text(d[..a])], [span]);
      TextContentOfSingle(Text(d[..a]));
      TextContentOfSingle(span);
      TextContentOfSingle(Text(d[b..]));
      assert d[..a] + d[a..b] == d[..b];
      assert d[..b] + d[b..] == d;
    }
    TextContentOfAt(s, k);
    TextContentOfSingle(s[k]);
  }

  /** The list an element-range replacement leaves, and its text. */
  lemma ReplaceRange(s: seq<Node>, a: nat, b: nat, span: Node)
    requires a <= b <= |s| && TextContent(span) == TextContentOf(s[a..b])
    ensures TextContentOf(s[..a] + [span] + s[b..]) == TextContentOf(s)
  {
    var x, y, z := s[..a], s[a..b], s[b..];
    TextContentOfSplice(s, a, [span], b);
    TextContentOfSingle(span);
    assert x + y == s[..b];
    assert s[..b] + z == s;
    TextContentOfAppend(x + y, z);
    TextContentOfAppend(x, y);
  }

  /** Styling never changes the document's text. */
  lemma ApplyStyleKeepsText(root: seq<Node>, sel: Selection, code: string)
    requires sel.Range? ==> InOneNode(root, sel)
    ensures TextContentOf(ApplyStyle(root, sel, code).content) == TextContentOf(root)
  {
    if sel.Range? && SelectedText(root, sel) != "" {
      var c := sel.start.container;
      var a := sel.start.offset;
      var b := sel.end.offset;
      var t := SelectedText(root, sel);
      var span := StyleSpan(code, t);
      TextContentOfSingle(Text(t));
      if InText(root, sel) {
        ParentIsContainer(root, c);
        var pp := Parent(c);
        var s := ChildrenAt(root, pp);
        var l := s[..Last(c)] + [Text(At(root, c).data[..a]), span, Text(At(root, c).data[b..])] + s[Last(c) + 1..];
        SplitText(s, Last(c), At(root, c).data, a, b, span);
        TextContentOfWith(root, pp, l);
      } else {
        RangeInChildren(root, sel);
        var s := ChildrenAt(root, c);
        ReplaceRange(s, a, b, span);
        TextContentOfWith(root, c, s[..a] + [span] + s[b..]);
      }
    }
  }

  /**
   * After styling non-empty text, the selection is exactly the contents of a
   * span of the new document: class `ansi-<code>`, holding the selected text
   * as one plain text node.
   */
  lemma ApplyStyleSelectsSpan(root: seq<Node>, sel: Selection, code: string)
    requires InOneNode(root, sel) && SelectedText(root, sel) != ""
    ensures ApplyStyle(root, sel, code).selection.Range?
    ensures ApplyStyle(root, sel, code).selection.start
         == Boundary(ApplyStyle(root, sel, code).selection.start.container, 0)
    ensures ApplyStyle(root, sel, code).selection.end
         == Boundary(ApplyStyle(root, sel, code).selection.start.container, 1)
    ensures ValidPath(ApplyStyle(root, sel, code).content, ApplyStyle(root, sel, code).selection.start.container)
    ensures At(ApplyStyle(root, sel, code).content, ApplyStyle(root, sel, code).selection.start.container)
         == StyleSpan(code, SelectedText(root, sel))
  {
    var c := sel.start.container;
    var a := sel.start.offset;
    var b := sel.end.offset;
    var span := StyleSpan(code, SelectedText(root, sel));
    if InText(root, sel) {
      ParentIsContainer(root, c);
      var pp := Parent(c);
      var k := Last(c);
      var s := ChildrenAt(root, pp);
      var d := At(root, c).data;
      var l := s[..k] + [Text(d[..a]), span, Text(d[b..])] + s[k + 1..];
      assert l[k + 1] == span;
      ChildrenAtWith(root, pp, l);
      ChildPath(WithChildrenAt(root, pp, l), pp, k + 1);
    } else {
      RangeInChildren(root, sel);
      var s := ChildrenAt(root, c);
      var l := s[..a] + [span] + s[b..];
      assert l[a] == span;
      ChildrenAtWith(root, c, l);
      ChildPath(WithChildrenAt(root, c, l), c, a);
    }
  }

  /**
   * The buttons pass decimal codes; with such a code, styling keeps the shape
   * the cleaner leaves (every element a BR or an ansi span).
   */
  lemma ApplyStyleKeepsWellFormed(root: seq<Node>, sel: Selection, code: string)
    requires sel.Range? ==> InOneNode(root, sel)
    requires Sanitizer.AllWellFormed(root) && code != [] && AllDigits(code)
    ensures Sanitizer.AllWellFormed(ApplyStyle(root, sel, code).content)
  {
    if sel.Range? && SelectedText(root, sel) != "" {
      var c := sel.start.container;
      var a := sel.start.offset;
      var b := sel.end.offset;
      var span := StyleSpan(code, SelectedText(root, sel));
      ClassOfDigits(code);
      assert Sanitizer.WellFormed(span) by {
        assert Sanitizer.AllWellFormed(span.children);
      }
      if InText(root, sel) {
        ParentIsContainer(root, c);
        var pp := Parent(c);
        var k := Last(c);
        var s := ChildrenAt(root, pp);
        var d := At(root, c).data;
        Sanitizer.ChildrenAtWellFormed(root, pp);
        Sanitizer.WithChildrenAtWellFormed(root, pp, s[..k] + [Text(d[..a]), span, Text(d[b..])] + s[k + 1..]);
      } else {
        RangeInChildren(root, sel);
        var s := ChildrenAt(root, c);
        Sanitizer.ChildrenAtWellFormed(root, c);
        Sanitizer.WithChildrenAtWellFormed(root, c, s[..a] + [span] + s[b..]);
      }
    }
  }

  /**
   * Pressing a second button right after the first styles the new span's
   * contents: the second span goes inside the first, which keeps its class.
   */
  lemma RestyleNests(root: seq<Node>, sel: Selection, code: string, code2: string)
    requires InOneNode(root, sel) && SelectedText(root, sel) != ""
    ensures InOneNode(ApplyStyle(root, sel, code).content, ApplyStyle(root, sel, code).selection)
    ensures ValidPath(ApplyStyle(ApplyStyle(root, sel, code).content, ApplyStyle(root, sel, code).selection, code2).content,
                      ApplyStyle(root, sel, code).selection.start.container)
    ensures At(ApplyStyle(ApplyStyle(root, sel, code).content, ApplyStyle(root, sel, code).selection, code2).content,
               ApplyStyle(root, sel, code).selection.start.container)
         == Element(SPAN, "ansi-" + code, [StyleSpan(code2, SelectedText(root, sel))])
  {
    var first := ApplyStyle(root, sel, code);
    var t := SelectedText(root, sel);
    ApplyStyleSelectsSpan(root, sel, code);
    var q := first.selection.start.container;
    assert !InText(first.content, first.selection);
    assert ChildrenAt(first.content, q) == [Text(t)] by {
      ChildrenOfElement(first.content, q);
    }
    assert [Text(t)][0..1] == [Text(t)];
    TextContentOfSingle(Text(t));
    assert SelectedText(first.content, first.selection) == t;
    assert [Text(t)][..0] + [StyleSpan(code2, t)] + [Text(t)][1..] == [StyleSpan(code2, t)];
    AtWithChildren(first.content, q, [StyleSpan(code2, t)]);
  }

  /**
   * What the export makes of a button's span: the opening sequence for its
   * code, the text, `ESC[0m`, and the restoration of the enclosing entry. At
   * the top level with a colour code 30-37 that is `ESC[2;c m`, text, `ESC[0m`.
   */
  lemma StyleSpanEncoding(code: string, t: string, top: Encoder.Style)
    requires code != [] && AllDigits(code)
    ensures Encoder.EncodeNode(StyleSpan(code, t), top)
         == (if DigitsValue(code) < 30 then Encoder.Sgr(DigitsValue(code), top.fg) else Encoder.Sgr(top.st, DigitsValue(code)))
          + t + Encoder.Reset + Encoder.Restore(top)
    ensures 30 <= DigitsValue(code) < 40 && top == Encoder.Sentinel ==>
      Encoder.EncodeNode(StyleSpan(code, t), top) == Encoder.Sgr(Encoder.Unset, DigitsValue(code)) + t + Encoder.Reset
  {
    var v := DigitsValue(code);
    ClassOfDigits(code);
    Encoder.SpanEncoding(SPAN, "ansi-" + code, [Text(t)], top, v);
    assert Encoder.EncodeNodes([Text(t)], Encoder.Enter(top, v)) == t;
    Encoder.RestoreCases(top);
  }

  // ---------------------------------------------------------------------------
  // resetAll

  /** Reset keeps the document's text. */
  lemma ResetAllKeepsText(root: seq<Node>, sel: Selection)
    ensures TextContentOf(ResetAll(root, sel).content) == TextContentOf(root)
  {
    TextContentOfSingle(Text(TextContentOf(root)));
  }

  /** Resetting twice is resetting once. */
  lemma ResetAllIdempotent(root: seq<Node>, sel: Selection)
    ensures ResetAll(ResetAll(root, sel).content, ResetAll(root, sel).selection) == ResetAll(root, sel)
  {
    ResetAllKeepsText(root, sel);
  }

  /** A reset document is already clean, and its export is its text between the fences, with no escape sequence. */
  lemma ResetAllExport(root: seq<Node>, sel: Selection)
    ensures Sanitizer.CleanAll(ResetAll(root, sel).content) == ResetAll(root, sel).content
    ensures Encoder.Export(ResetAll(root, sel).content) == "```ansi\n" + TextContentOf(root) + "\n```"
  {
    var r := ResetAll(root, sel);
    Sanitizer.CleanUnchangedIff(r.content);
    if r.content != [] {
      assert r.content[1..] == [];
      assert Encoder.EncodeNodes(r.content, Encoder.Sentinel) == TextContentOf(root);
    }
  }
}
