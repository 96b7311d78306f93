/**
 * The Backspace key in the editable region.
 *
 * The key handler acts only on a collapsed selection at offset 0 of its
 * container. At the very start of the region it just cancels the key. Inside
 * a span it merges the span into the nearest preceding element sibling when
 * that is a span, or unwraps it into plain text otherwise. Elsewhere it looks
 * at the container's previous sibling: text absorbs the current text node, a
 * line break is removed, a span is unwrapped. Every other case is left to the
 * browser's own deletion.
 *
 * `Backspace` computes what the handler does as a value: the new document and
 * selection, or `Default` when it does not cancel the key.
 */
module Backspace {
  import opened Dom
  import Sanitizer

  datatype Outcome =
    /** The handler returns without cancelling the key: the browser's own deletion runs. */
    | Default
    /** The key is cancelled; the document and the selection are now these. */
    | Handled(content: seq<Node>, selection: Selection)
    /**
     * The key is cancelled and the document changed, but placing the caret
     * threw (an offset past the end of its node); the selection is where the
     * DOM's removal rules moved it.
     */
    | Aborted(content: seq<Node>, selection: Selection)

  /** The selection's start names a node of the region (or the region itself). */
  predicate InDocument(root: seq<Node>, sel: Selection)
  {
    sel.Range? ==> (sel.start.container == [] || ValidPath(root, sel.start.container))
  }

  predicate ValidCaret(root: seq<Node>, sel: Selection)
  {
    sel.Range? && sel.start == sel.end && ValidBoundary(root, sel.start)
  }

  /** What pressing Backspace with the caret at offset 0 of the node at `c` does. */
  function PressAt(root: seq<Node>, c: seq<nat>): Outcome
    requires c == [] || ValidPath(root, c)
  {
    Backspace(root, Caret(Boundary(c, 0)))
  }

  /** The selection is a caret at the end of a text node of the document. */
  predicate CaretAtEndOfText(root: seq<Node>, sel: Selection)
  {
    sel.Range? && sel.start == sel.end && ValidPath(root, sel.start.container)
    && At(root, sel.start.container).Text? && sel.start.offset == |At(root, sel.start.container).data|
  }

  /** The span's nearest preceding element sibling is missing or is not a span. */
  predicate NoPreviousSpan(s: seq<Node>, k: nat)
    requires k <= |s|
  {
    PrevElement(s, k).None? || s[PrevElement(s, k).value].tag != SPAN
  }

  /** `node.remove()` of child k. */
  function RemoveAt(s: seq<Node>, k: nat): (r: seq<Node>)
    requires k < |s|
    ensures |r| == |s| - 1
    ensures forall i :: 0 <= i < k ==> r[i] == s[i]
    ensures forall i :: k <= i < |r| ==> r[i] == s[i + 1]
  {
    s[..k] + s[k + 1..]
  }

  /** `previousElementSibling` of child k: the nearest element before it, skipping text. */
  function PrevElement(s: seq<Node>, k: nat): (r: Option<nat>)
    requires k <= |s|
    ensures r.Some? ==> r.value < k && s[r.value].Element?
    ensures r.Some? ==> forall i :: r.value < i < k ==> s[i].Text?
    ensures r.None? ==> forall i :: 0 <= i < k ==> s[i].Text?
    decreases k
  {
    if k == 0 then None
    else if s[k - 1].Element? then Some(k - 1)
    else PrevElement(s, k - 1)
  }

  /** The container's parent element is a span. */
  predicate InSpan(root: seq<Node>, c: seq<nat>)
  {
    |c| >= 2 && ValidPath(root, Parent(c)) && At(root, Parent(c)).Element? && At(root, Parent(c)).tag == SPAN
  }

  /**
   * The handler for Backspace, given the document and the selection at the
   * moment the key goes down.
   */
  function Backspace(root: seq<Node>, sel: Selection): (o: Outcome)
    requires InDocument(root, sel)
    ensures o.Default? <==> !(sel.Range? && sel.start == sel.end && sel.start.offset == 0)
    ensures sel == Caret(Boundary([], 0)) ==> o == Handled(root, sel)
  {
    if sel.NoRange? || sel.start != sel.end then Default
    else
      var c := sel.start.container;
      if sel.start.offset == 0 && c == [] then Handled(root, sel)
      else if sel.start.offset != 0 then Default
      else if InSpan(root, c) then SpanBoundary(root, Parent(c))
      else SiblingBoundary(root, c)
  }

  /** Offset 0 inside a span at path `sp`. */
  function SpanBoundary(root: seq<Node>, sp: seq<nat>): (o: Outcome)
    requires ValidPath(root, sp)
    ensures !o.Default?
  {
    ParentIsContainer(root, sp);
    var gp := Parent(sp);
    var k := Last(sp);
    var s := ChildrenAt(root, gp);
    match PrevElement(s, k)
    case Some(j) =>
      if s[j].tag == SPAN then MergeSpans(root, gp, j, k) else Unwrap(root, gp, k)
    case None => Unwrap(root, gp, k)
  }

  /**
   * What the previous span becomes: one text node holding both texts when
   * both are non-empty, otherwise unchanged.
   */
  function Merged(prev: Node, span: Node): (m: Node)
    requires prev.Element?
    ensures m.Element? && m.tag == prev.tag && m.className == prev.className
  {
    if TextContent(prev) != "" && TextContent(span) != "" then
      Element(prev.tag, prev.className, [Text(TextContent(prev) + TextContent(span))])
    else prev
  }

  /**
   * The span (child k of `gp`) merges into the span at j and is removed; the
   * caret goes into the merged span's last child at the merged text length,
   * which throws when that child is shorter.
   */
  function MergeSpans(root: seq<Node>, gp: seq<nat>, j: nat, k: nat): (o: Outcome)
    requires IsContainer(root, gp) && j < k < |ChildrenAt(root, gp)| && ChildrenAt(root, gp)[j].Element?
    ensures !o.Default?
  {
    var s := ChildrenAt(root, gp);
    var merged := Merged(s[j], s[k]);
    var content := WithChildrenAt(root, gp, RemoveAt(s[j := merged], k));
    var len := |TextContent(merged)|;
    if merged.children == [] then
      Handled(content, Caret(Boundary(gp + [j], len)))
    else if len <= NodeLength(merged.children[|merged.children| - 1]) then
      Handled(content, Caret(Boundary(gp + [j, |merged.children| - 1], len)))
    else
      Aborted(content, Caret(Boundary(gp, k)))
  }

  /** The span (child k of `gp`) is replaced by a text node of its text; the caret goes to its end. */
  function Unwrap(root: seq<Node>, gp: seq<nat>, k: nat): (o: Outcome)
    requires IsContainer(root, gp) && k < |ChildrenAt(root, gp)|
    ensures !o.Default?
  {
    var s := ChildrenAt(root, gp);
    var t := TextContent(s[k]);
    Handled(WithChildrenAt(root, gp, s[k := Text(t)]), Caret(Boundary(gp + [k], |t|)))
  }

  /** Offset 0 in a container `c` whose parent is not a span. */
  function SiblingBoundary(root: seq<Node>, c: seq<nat>): (o: Outcome)
    requires ValidPath(root, c)
    ensures !o.Default?
  {
    ParentIsContainer(root, c);
    var pp := Parent(c);
    var k := Last(c);
    var s := ChildrenAt(root, pp);
    if k == 0 then Handled(root, Caret(Boundary(c, 0)))
    else
      match s[k - 1]
      case Text(d) =>
        var cur := if s[k].Text? then s[k].data else "";
        Handled(WithChildrenAt(root, pp, RemoveAt(s[k - 1 := Text(d + cur)], k)),
                Caret(Boundary(pp + [k - 1], |d + cur|)))
      case Element(tag, _, _) =>
        if tag == BR then
          Handled(WithChildrenAt(root, pp, RemoveAt(s, k - 1)), Caret(Boundary(pp + [k - 1], 0)))
        else if tag == SPAN then
          var t := TextContent(s[k - 1]);
          Handled(WithChildrenAt(root, pp, s[k - 1 := Text(t)]), Caret(Boundary(pp + [k - 1], |t|)))
        else Handled(root, Caret(Boundary(c, 0)))
  }

  // ---------------------------------------------------------------------------
  // Reaching each case

  /** A caret at offset 0 of child k of a container that is not a span takes the sibling branch. */
  lemma SiblingCase(root: seq<Node>, pp: seq<nat>, k: nat)
    requires IsContainer(root, pp) && k < |ChildrenAt(root, pp)|
    requires pp == [] || At(root, pp).tag != SPAN
    ensures ValidPath(root, pp + [k]) && At(root, pp + [k]) == ChildrenAt(root, pp)[k]
    ensures Parent(pp + [k]) == pp && Last(pp + [k]) == k
    ensures Backspace(root, Caret(Boundary(pp + [k], 0))) == SiblingBoundary(root, pp + [k])
  {
    ChildPath(root, pp, k);
    assert Parent(pp + [k]) == pp;
  }

  /** A caret at offset 0 of a node c inside the span that is child k of `gp` takes the span branch. */
  lemma SpanCase(root: seq<Node>, gp: seq<nat>, k: nat, c: seq<nat>)
    requires IsContainer(root, gp) && k < |ChildrenAt(root, gp)|
    requires ChildrenAt(root, gp)[k].Element? && ChildrenAt(root, gp)[k].tag == SPAN
    requires ValidPath(root, c) && c != [] && Parent(c) == gp + [k]
    ensures ValidPath(root, gp + [k]) && At(root, gp + [k]) == ChildrenAt(root, gp)[k]
    ensures Parent(gp + [k]) == gp && Last(gp + [k]) == k
    ensures Backspace(root, Caret(Boundary(c, 0))) == SpanBoundary(root, gp + [k])
  {
    ChildPath(root, gp, k);
    assert Parent(gp + [k]) == gp;
  }

  // ---------------------------------------------------------------------------
  // The caret the handler leaves is a boundary of the new document

  lemma CaretInChild(root: seq<Node>, p: seq<nat>, c: seq<Node>, i: nat, off: nat)
    requires IsContainer(root, p) && i < |c| && off <= NodeLength(c[i])
    ensures ValidBoundary(WithChildrenAt(root, p, c), Boundary(p + [i], off))
    ensures At(WithChildrenAt(root, p, c), p + [i]) == c[i]
  {
    ChildrenAtWith(root, p, c);
    ChildPath(WithChildrenAt(root, p, c), p, i);
  }

  lemma CaretInGrandchild(root: seq<Node>, p: seq<nat>, c: seq<Node>, i: nat, off: nat)
    requires IsContainer(root, p) && i < |c| && c[i].Element? && c[i].children != []
    requires off <= NodeLength(c[i].children[|c[i].children| - 1])
    ensures ValidBoundary(WithChildrenAt(root, p, c), Boundary(p + [i, |c[i].children| - 1], off))
    ensures At(WithChildrenAt(root, p, c), p + [i, |c[i].children| - 1]) == c[i].children[|c[i].children| - 1]
  {
    var content := WithChildrenAt(root, p, c);
    ChildrenAtWith(root, p, c);
    ChildPath(content, p, i);
    ChildrenOfElement(content, p + [i]);
    ChildPath(content, p + [i], |c[i].children| - 1);
    assert p + [i] + [|c[i].children| - 1] == p + [i, |c[i].children| - 1];
  }

  lemma CaretInContainer(root: seq<Node>, p: seq<nat>, c: seq<Node>, k: nat)
    requires IsContainer(root, p) && k <= |c|
    ensures ValidBoundary(WithChildrenAt(root, p, c), Boundary(p, k))
  {
    ChildrenAtWith(root, p, c);
    if p != [] {
      ChildrenOfElement(WithChildrenAt(root, p, c), p);
    }
  }

  /**
   * Whatever the handler does, the selection it leaves is a collapsed range at
   * a boundary of the new document: a node that exists and an offset within
   * its length. (The throwing case is exactly the one where the code's own
   * offset would not be; the selection is then where the removal put it.)
   */
  lemma BackspaceCaretValid(root: seq<Node>, sel: Selection)
    requires InDocument(root, sel)
    ensures Backspace(root, sel).Handled? ==> ValidCaret(Backspace(root, sel).content, Backspace(root, sel).selection)
    ensures Backspace(root, sel).Aborted? ==> ValidCaret(Backspace(root, sel).content, Backspace(root, sel).selection)
  {
    if sel.Range? && sel.start == sel.end && sel.start.offset == 0 && sel.start.container != [] {
      var c := sel.start.container;
      if InSpan(root, c) {
        SpanBoundaryCaretValid(root, Parent(c));
      } else {
        SiblingBoundaryCaretValid(root, c);
      }
    }
  }

  lemma SpanBoundaryCaretValid(root: seq<Node>, sp: seq<nat>)
    requires ValidPath(root, sp)
    ensures ValidCaret(SpanBoundary(root, sp).content, SpanBoundary(root, sp).selection)
  {
    ParentIsContainer(root, sp);
    var gp := Parent(sp);
    var k := Last(sp);
    var s := ChildrenAt(root, gp);
    var prev := PrevElement(s, k);
    if prev.Some? && s[prev.value].tag == SPAN {
      MergeSpansCaretValid(root, gp, prev.value, k);
    } else {
      UnwrapCaretValid(root, gp, k);
    }
  }

  lemma MergeSpansCaretValid(root: seq<Node>, gp: seq<nat>, j: nat, k: nat)
    requires IsContainer(root, gp) && j < k < |ChildrenAt(root, gp)| && ChildrenAt(root, gp)[j].Element?
    ensures ValidCaret(MergeSpans(root, gp, j, k).content, MergeSpans(root, gp, j, k).selection)
  {
    var s := ChildrenAt(root, gp);
    var merged := Merged(s[j], s[k]);
    var c := RemoveAt(s[j := merged], k);
    var len := |TextContent(merged)|;
    assert c[j] == merged;
    if merged.children == [] {
      assert TextContent(merged) == TextContentOf(merged.children) == "";
      CaretInChild(root, gp, c, j, len);
    } else if len <= NodeLength(merged.children[|merged.children| - 1]) {
      CaretInGrandchild(root, gp, c, j, len);
    } else {
      CaretInContainer(root, gp, c, k);
    }
  }

  lemma UnwrapCaretValid(root: seq<Node>, gp: seq<nat>, k: nat)
    requires IsContainer(root, gp) && k < |ChildrenAt(root, gp)|
    ensures ValidCaret(Unwrap(root, gp, k).content, Unwrap(root, gp, k).selection)
  {
    var s := ChildrenAt(root, gp);
    var t := TextContent(s[k]);
    CaretInChild(root, gp, s[k := Text(t)], k, |t|);
  }

  lemma SiblingBoundaryCaretValid(root: seq<Node>, c: seq<nat>)
    requires ValidPath(root, c)
    ensures ValidCaret(SiblingBoundary(root, c).content, SiblingBoundary(root, c).selection)
  {
    ParentIsContainer(root, c);
    var pp := Parent(c);
    var k := Last(c);
    var s := ChildrenAt(root, pp);
    if k > 0 {
      match s[k - 1]
      case Text(d) =>
        var cur := if s[k].Text? then s[k].data else "";
        var l := RemoveAt(s[k - 1 := Text(d + cur)], k);
        assert l[k - 1] == Text(d + cur);
        CaretInChild(root, pp, l, k - 1, |d + cur|);
      case Element(tag, _, _) =>
        if tag == BR {
          CaretInChild(root, pp, RemoveAt(s, k - 1), k - 1, 0);
        } else if tag == SPAN {
          var t := TextContent(s[k - 1]);
          CaretInChild(root, pp, s[k - 1 := Text(t)], k - 1, |t|);
        }
    }
  }

  // ---------------------------------------------------------------------------
  // The handler keeps the cleaner's shape

  /** Edits made by the handler never create an element other than a BR or an ansi span. */
  lemma BackspaceKeepsWellFormed(root: seq<Node>, sel: Selection)
    requires InDocument(root, sel) && Sanitizer.AllWellFormed(root)
    ensures Backspace(root, sel).Handled? ==> Sanitizer.AllWellFormed(Backspace(root, sel).content)
    ensures Backspace(root, sel).Aborted? ==> Sanitizer.AllWellFormed(Backspace(root, sel).content)
  {
    if sel.Range? && sel.start == sel.end && sel.start.offset == 0 && sel.start.container != [] {
      var c := sel.start.container;
      if InSpan(root, c) {
        SpanBoundaryWellFormed(root, Parent(c));
      } else {
        SiblingBoundaryWellFormed(root, c);
      }
    }
  }

  lemma SpanBoundaryWellFormed(root: seq<Node>, sp: seq<nat>)
    requires ValidPath(root, sp) && Sanitizer.AllWellFormed(root)
    ensures Sanitizer.AllWellFormed(SpanBoundary(root, sp).content)
  {
    ParentIsContainer(root, sp);
    var gp := Parent(sp);
    var k := Last(sp);
    var s := ChildrenAt(root, gp);
    Sanitizer.ChildrenAtWellFormed(root, gp);
    var prev := PrevElement(s, k);
    if prev.Some? && s[prev.value].tag == SPAN {
      var j := prev.value;
      var merged := Merged(s[j], s[k]);
      assert Sanitizer.WellFormed(merged) by {
        assert Sanitizer.WellFormed(s[j]);
        assert Sanitizer.AllWellFormed([Text(TextContent(s[j]) + TextContent(s[k]))]);
      }
      Sanitizer.WithChildrenAtWellFormed(root, gp, RemoveAt(s[j := merged], k));
    } else {
      Sanitizer.WithChildrenAtWellFormed(root, gp, s[k := Text(TextContent(s[k]))]);
    }
  }

  lemma SiblingBoundaryWellFormed(root: seq<Node>, c: seq<nat>)
    requires ValidPath(root, c) && Sanitizer.AllWellFormed(root)
    ensures Sanitizer.AllWellFormed(SiblingBoundary(root, c).content)
  {
    ParentIsContainer(root, c);
    var pp := Parent(c);
    var k := Last(c);
    var s := ChildrenAt(root, pp);
    Sanitizer.ChildrenAtWellFormed(root, pp);
    if k > 0 {
      match s[k - 1]
      case Text(d) =>
        var cur := if s[k].Text? then s[k].data else "";
        Sanitizer.WithChildrenAtWellFormed(root, pp, RemoveAt(s[k - 1 := Text(d + cur)], k));
      case Element(tag, _, _) =>
        if tag == BR {
          Sanitizer.WithChildrenAtWellFormed(root, pp, RemoveAt(s, k - 1));
        } else if tag == SPAN {
          Sanitizer.WithChildrenAtWellFormed(root, pp, s[k - 1 := Text(TextContent(s[k - 1]))]);
        }
    }
  }

  // ---------------------------------------------------------------------------
  // Text of an edited child list

  lemma UpdateText(s: seq<Node>, k: nat, n: Node)
    requires k < |s|
    ensures TextContentOf(s[k := n]) == TextContentOf(s[..k]) + TextContent(n) + TextContentOf(s[k + 1..])
  {
    TextContentOfAt(s[k := n], k);
    assert s[k := n][..k] == s[..k];
    assert s[k := n][k + 1..] == s[k + 1..];
  }

  lemma UpdateSame(s: seq<Node>, i: nat)
    requires i < |s|
    ensures s[i := s[i]] == s
  {
  }

  lemma RemoveText(s: seq<Node>, k: nat)
    requires k < |s|
    ensures TextContentOf(RemoveAt(s, k)) == TextContentOf(s[..k]) + TextContentOf(s[k + 1..])
  {
    TextContentOfAppend(s[..k], s[k + 1..]);
  }

  /** The child list around two children j < k: before j, j, between, k, after k. */
  lemma TextAround(s: seq<Node>, j: nat, k: nat)
    requires j < k < |s|
    ensures TextContentOf(s)
         == TextContentOf(s[..j]) + TextContent(s[j]) + TextContentOf(s[j + 1..k]) + TextContent(s[k]) + TextContentOf(s[k + 1..])
  {
    TextContentOfAt(s, k);
    TextContentOfAt(s[..k], j);
    assert s[..k][..j] == s[..j];
    assert s[..k][j + 1..] == s[j + 1..k];
  }

  lemma MergeListText(s: seq<Node>, j: nat, k: nat, m: Node)
    requires j < k < |s|
    ensures RemoveAt(s[j := m], k) == s[..j] + [m] + s[j + 1..k] + s[k + 1..]
    ensures TextContentOf(RemoveAt(s[j := m], k))
         == TextContentOf(s[..j]) + TextContent(m) + TextContentOf(s[j + 1..k]) + TextContentOf(s[k + 1..])
  {
    assert RemoveAt(s[j := m], k) == s[..j] + [m] + s[j + 1..k] + s[k + 1..];
    TextContentOfAppend(s[..j] + [m] + s[j + 1..k], s[k + 1..]);
    TextContentOfAppend(s[..j] + [m], s[j + 1..k]);
    TextContentOfAppend(s[..j], [m]);
    TextContentOfSingle(m);
  }

  // ---------------------------------------------------------------------------
  // What each case does to the document

  /**
   * Two adjacent spans: Backspace at the start of the second one leaves one
   * span, with the first span's class, holding both texts as a single text
   * node; the document's text is unchanged and the caret is at the end of the
   * merged text.
   */
  lemma AdjacentSpansMerge(root: seq<Node>, gp: seq<nat>, k: nat, c: seq<nat>)
    requires IsContainer(root, gp) && 0 < k < |ChildrenAt(root, gp)|
    requires ChildrenAt(root, gp)[k].Element? && ChildrenAt(root, gp)[k].tag == SPAN
    requires ChildrenAt(root, gp)[k - 1].Element? && ChildrenAt(root, gp)[k - 1].tag == SPAN
    requires TextContent(ChildrenAt(root, gp)[k - 1]) != "" && TextContent(ChildrenAt(root, gp)[k]) != ""
    requires ValidPath(root, c) && c != [] && Parent(c) == gp + [k]
    ensures PressAt(root, c).Handled?
    ensures IsContainer(PressAt(root, c).content, gp)
    ensures ChildrenAt(PressAt(root, c).content, gp)
         == ChildrenAt(root, gp)[..k - 1]
          + [Element(SPAN, ChildrenAt(root, gp)[k - 1].className,
                     [Text(TextContent(ChildrenAt(root, gp)[k - 1]) + TextContent(ChildrenAt(root, gp)[k]))])]
          + ChildrenAt(root, gp)[k + 1..]
    ensures TextContentOf(PressAt(root, c).content) == TextContentOf(root)
    ensures CaretAtEndOfText(PressAt(root, c).content, PressAt(root, c).selection)
  {
    AdjacentMergeOutcome(root, gp, k, c);
    var s := ChildrenAt(root, gp);
    var merged := Merged(s[k - 1], s[k]);
    var l := RemoveAt(s[k - 1 := merged], k);
    AdjacentMergeList(s, k);
    ChildrenAtWith(root, gp, l);
    TextContentOfWith(root, gp, l);
    assert merged.children == [Text(TextContent(s[k - 1]) + TextContent(s[k]))];
    TextContentOfSingle(merged.children[0]);
    assert |TextContent(merged)| == NodeLength(merged.children[0]);
    CaretInGrandchild(root, gp, l, k - 1, |TextContent(merged)|);
  }

  lemma AdjacentMergeOutcome(root: seq<Node>, gp: seq<nat>, k: nat, c: seq<nat>)
    requires IsContainer(root, gp) && 0 < k < |ChildrenAt(root, gp)|
    requires ChildrenAt(root, gp)[k].Element? && ChildrenAt(root, gp)[k].tag == SPAN
    requires ChildrenAt(root, gp)[k - 1].Element? && ChildrenAt(root, gp)[k - 1].tag == SPAN
    requires TextContent(ChildrenAt(root, gp)[k - 1]) != "" && TextContent(ChildrenAt(root, gp)[k]) != ""
    requires ValidPath(root, c) && c != [] && Parent(c) == gp + [k]
    ensures PressAt(root, c)
         == Handled(WithChildrenAt(root, gp, RemoveAt(ChildrenAt(root, gp)[k - 1 := Merged(ChildrenAt(root, gp)[k - 1], ChildrenAt(root, gp)[k])], k)),
                    Caret(Boundary(gp + [k - 1, 0], |TextContent(Merged(ChildrenAt(root, gp)[k - 1], ChildrenAt(root, gp)[k]))|)))
  {
    SpanCase(root, gp, k, c);
    var s := ChildrenAt(root, gp);
    assert PrevElement(s, k) == Some(k - 1);
    MergeSpansHandled(root, gp, k - 1, k);
    TextContentOfSingle(Text(TextContent(s[k - 1]) + TextContent(s[k])));
  }

  /** The child list after merging span k into span k - 1: one span holding both texts, and the same text overall. */
  lemma AdjacentMergeList(s: seq<Node>, k: nat)
    requires 0 < k < |s| && s[k - 1].Element?
    requires TextContent(s[k - 1]) != "" && TextContent(s[k]) != ""
    ensures RemoveAt(s[k - 1 := Merged(s[k - 1], s[k])], k)
         == s[..k - 1] + [Element(s[k - 1].tag, s[k - 1].className, [Text(TextContent(s[k - 1]) + TextContent(s[k]))])] + s[k + 1..]
    ensures TextContentOf(RemoveAt(s[k - 1 := Merged(s[k - 1], s[k])], k)) == TextContentOf(s)
    ensures RemoveAt(s[k - 1 := Merged(s[k - 1], s[k])], k)[k - 1] == Merged(s[k - 1], s[k])
  {
    var merged := Merged(s[k - 1], s[k]);
    var l := RemoveAt(s[k - 1 := merged], k);
    MergeListText(s, k - 1, k, merged);
    MergedListText(s, k - 1, k);
    var between := s[k - 1 + 1..k];
    assert between == [];
    assert l == s[..k - 1] + [merged] + s[k + 1..] by {
      assert s[..k - 1] + [merged] + between == s[..k - 1] + [merged];
    }
    TextAround(s, k - 1, k);
    var a, d, e, c := TextContentOf(s[..k - 1]), TextContent(s[k - 1]), TextContent(s[k]), TextContentOf(s[k + 1..]);
    assert TextContentOf(between) == "";
    assert TextContentOf(l) == a + (d + e) + "" + c;
    assert TextContentOf(s) == a + d + "" + e + c;
    Concat5(a, d, e, "", c);
  }

  /**
   * `previousElementSibling` skips text: when text nodes lie between the two
   * spans, the second span's text is appended to the first span's, ahead of
   * that text, so the document's text is reordered.
   */
  lemma MergeAcrossText(root: seq<Node>, gp: seq<nat>, j: nat, k: nat, c: seq<nat>)
    requires IsContainer(root, gp) && j < k < |ChildrenAt(root, gp)|
    requires ChildrenAt(root, gp)[k].Element? && ChildrenAt(root, gp)[k].tag == SPAN
    requires ChildrenAt(root, gp)[j].Element? && ChildrenAt(root, gp)[j].tag == SPAN
    requires forall i :: j < i < k ==> ChildrenAt(root, gp)[i].Text?
    requires TextContent(ChildrenAt(root, gp)[j]) != "" && TextContent(ChildrenAt(root, gp)[k]) != ""
    requires ValidPath(root, c) && c != [] && Parent(c) == gp + [k]
    ensures PressAt(root, c).Handled?
    ensures IsContainer(PressAt(root, c).content, gp)
    ensures TextContentOf(ChildrenAt(PressAt(root, c).content, gp))
         == TextContentOf(ChildrenAt(root, gp)[..j]) + TextContent(ChildrenAt(root, gp)[j])
          + TextContent(ChildrenAt(root, gp)[k]) + TextContentOf(ChildrenAt(root, gp)[j + 1..k])
          + TextContentOf(ChildrenAt(root, gp)[k + 1..])
  {
    SpanCase(root, gp, k, c);
    var s := ChildrenAt(root, gp);
    PrevElementSkipsText(s, j, k);
    assert PressAt(root, c) == MergeSpans(root, gp, j, k);
    var l := MergedList(s, j, k);
    MergeSpansHandled(root, gp, j, k);
    MergedListText(s, j, k);
    ChildrenAtWith(root, gp, l);
    Concat5(TextContentOf(s[..j]), TextContent(s[j]), TextContent(s[k]), TextContentOf(s[j + 1..k]), TextContentOf(s[k + 1..]));
  }

  lemma Concat5(a: string, x: string, y: string, b: string, c: string)
    ensures a + (x + y) + b + c == a + x + y + b + c
  {
  }

  /** Two spans with text: the merged span holds one text node, so the caret at the merged length is within it. */
  lemma MergeSpansHandled(root: seq<Node>, gp: seq<nat>, j: nat, k: nat)
    requires IsContainer(root, gp) && j < k < |ChildrenAt(root, gp)| && ChildrenAt(root, gp)[j].Element?
    requires TextContent(ChildrenAt(root, gp)[j]) != "" && TextContent(ChildrenAt(root, gp)[k]) != ""
    ensures MergeSpans(root, gp, j, k)
         == Handled(WithChildrenAt(root, gp, MergedList(ChildrenAt(root, gp), j, k)),
                    Caret(Boundary(gp + [j, 0], |TextContent(ChildrenAt(root, gp)[j]) + TextContent(ChildrenAt(root, gp)[k])|)))
  {
    var s := ChildrenAt(root, gp);
    var merged := Merged(s[j], s[k]);
    assert merged.children == [Text(TextContent(s[j]) + TextContent(s[k]))];
    TextContentOfSingle(merged.children[0]);
  }

  /** The child list after span k merges into the span at j. */
  function MergedList(s: seq<Node>, j: nat, k: nat): seq<Node>
    requires j < k < |s| && s[j].Element?
  {
    RemoveAt(s[j := Merged(s[j], s[k])], k)
  }

  /** When both texts are non-empty, the merged list holds the second span's text right after the first's. */
  lemma MergedListText(s: seq<Node>, j: nat, k: nat)
    requires j < k < |s| && s[j].Element?
    requires TextContent(s[j]) != "" && TextContent(s[k]) != ""
    ensures MergedList(s, j, k)[j] == Element(s[j].tag, s[j].className, [Text(TextContent(s[j]) + TextContent(s[k]))])
    ensures TextContentOf(MergedList(s, j, k))
         == TextContentOf(s[..j]) + (TextContent(s[j]) + TextContent(s[k])) + TextContentOf(s[j + 1..k]) + TextContentOf(s[k + 1..])
  {
    var merged := Merged(s[j], s[k]);
    MergeListText(s, j, k, merged);
    TextContentOfSingle(Text(TextContent(s[j]) + TextContent(s[k])));
  }

  /**
   * The throwing case is reachable: an empty span after a span holding two
   * text nodes. The merge keeps the first span as it is and removes the empty
   * one, and the caret offset (the first span's whole text length, 2) is past
   * the end of that span's last text node (length 1).
   */
  lemma EmptySpanAfterSplitSpanAborts()
    ensures
      var prev := Element(SPAN, "ansi-31", [Text("a"), Text("b")]);
      var root := [prev, Element(SPAN, "ansi-32", [Text("")])];
      ValidPath(root, [1, 0])
      && Backspace(root, Caret(Boundary([1, 0], 0))) == Aborted([prev], Caret(Boundary([], 1)))
  {
    var prev := Element(SPAN, "ansi-31", [Text("a"), Text("b")]);
    var root := [prev, Element(SPAN, "ansi-32", [Text("")])];
    assert ValidPath(root, [1, 0]);
    assert InSpan(root, [1, 0]);
    assert PrevElement(root, 1) == Some(0);
    assert TextContent(root[1]) == "" by {
      TextContentOfSingle(Text(""));
    }
    assert TextContent(prev) == "ab" by {
      TextContentOfAppend([Text("a")], [Text("b")]);
      TextContentOfSingle(Text("a"));
      TextContentOfSingle(Text("b"));
      assert [Text("a")] + [Text("b")] == prev.children;
    }
    assert Merged(prev, root[1]) == prev;
    assert RemoveAt(root[0 := prev], 1) == [prev];
  }

  lemma {:induction false} PrevElementSkipsText(s: seq<Node>, j: nat, k: nat)
    requires j < k <= |s| && s[j].Element? && forall i :: j < i < k ==> s[i].Text?
    ensures PrevElement(s, k) == Some(j)
    decreases k
  {
    if k - 1 != j {
      PrevElementSkipsText(s, j, k - 1);
    }
  }

  /**
   * When either span's text is empty the first span is left as it is and the
   * second is removed together with its text: a non-empty span after an empty
   * one loses its text.
   */
  lemma EmptySpanMergeDrops(root: seq<Node>, gp: seq<nat>, j: nat, k: nat, c: seq<nat>)
    requires IsContainer(root, gp) && j < k < |ChildrenAt(root, gp)|
    requires ChildrenAt(root, gp)[k].Element? && ChildrenAt(root, gp)[k].tag == SPAN
    requires ChildrenAt(root, gp)[j].Element? && ChildrenAt(root, gp)[j].tag == SPAN
    requires forall i :: j < i < k ==> ChildrenAt(root, gp)[i].Text?
    requires TextContent(ChildrenAt(root, gp)[j]) == "" || TextContent(ChildrenAt(root, gp)[k]) == ""
    requires ValidPath(root, c) && c != [] && Parent(c) == gp + [k]
    ensures !PressAt(root, c).Default?
    ensures IsContainer(PressAt(root, c).content, gp)
    ensures ChildrenAt(PressAt(root, c).content, gp) == RemoveAt(ChildrenAt(root, gp), k)
    ensures |TextContentOf(PressAt(root, c).content)| + |TextContent(ChildrenAt(root, gp)[k])|
         == |TextContentOf(root)|
  {
    SpanCase(root, gp, k, c);
    var s := ChildrenAt(root, gp);
    PrevElementSkipsText(s, j, k);
    assert s[j := Merged(s[j], s[k])] == s;
    var l := RemoveAt(s, k);
    ChildrenAtWith(root, gp, l);
    RemoveText(s, k);
    TextContentOfAt(s, k);
    TextContentOfWithLength(root, gp, l);
  }

  /**
   * Inside a span with no span before it (no element before it, or some other
   * element), Backspace at offset 0 replaces the span by its text; the
   * document's text is unchanged and the caret is at the end of that text.
   */
  lemma SpanUnwrapped(root: seq<Node>, gp: seq<nat>, k: nat, c: seq<nat>)
    requires IsContainer(root, gp) && k < |ChildrenAt(root, gp)|
    requires ChildrenAt(root, gp)[k].Element? && ChildrenAt(root, gp)[k].tag == SPAN
    requires NoPreviousSpan(ChildrenAt(root, gp), k)
    requires ValidPath(root, c) && c != [] && Parent(c) == gp + [k]
    ensures PressAt(root, c).Handled?
    ensures IsContainer(PressAt(root, c).content, gp)
    ensures ChildrenAt(PressAt(root, c).content, gp)
         == ChildrenAt(root, gp)[k := Text(TextContent(ChildrenAt(root, gp)[k]))]
    ensures TextContentOf(PressAt(root, c).content) == TextContentOf(root)
    ensures CaretAtEndOfText(PressAt(root, c).content, PressAt(root, c).selection)
  {
    SpanCase(root, gp, k, c);
    var s := ChildrenAt(root, gp);
    var t := Text(TextContent(s[k]));
    ChildrenAtWith(root, gp, s[k := t]);
    UpdateText(s, k, t);
    TextContentOfAt(s, k);
    TextContentOfWith(root, gp, s[k := t]);
    CaretInChild(root, gp, s[k := t], k, |t.data|);
  }

  /**
   * Outside a span, a previous text sibling absorbs the current text node,
   * which is removed; the document's text is unchanged and the caret goes to
   * the end of the merged text, not to the join.
   */
  lemma PreviousTextAbsorbs(root: seq<Node>, pp: seq<nat>, k: nat)
    requires IsContainer(root, pp) && 0 < k < |ChildrenAt(root, pp)|
    requires pp == [] || At(root, pp).tag != SPAN
    requires ChildrenAt(root, pp)[k - 1].Text? && ChildrenAt(root, pp)[k].Text?
    ensures ValidPath(root, pp + [k])
    ensures PressAt(root, pp + [k]).Handled?
    ensures IsContainer(PressAt(root, pp + [k]).content, pp)
    ensures ChildrenAt(PressAt(root, pp + [k]).content, pp)
         == ChildrenAt(root, pp)[..k - 1] + [Text(ChildrenAt(root, pp)[k - 1].data + ChildrenAt(root, pp)[k].data)]
          + ChildrenAt(root, pp)[k + 1..]
    ensures TextContentOf(PressAt(root, pp + [k]).content) == TextContentOf(root)
    ensures CaretAtEndOfText(PressAt(root, pp + [k]).content, PressAt(root, pp + [k]).selection)
  {
    PreviousTextOutcome(root, pp, k);
    var s := ChildrenAt(root, pp);
    var m := Text(TextAbsorbed(s, k));
    var l := RemoveAt(s[k - 1 := m], k);
    AbsorbList(s, k);
    ChildrenAtWith(root, pp, l);
    TextContentOfWith(root, pp, l);
    CaretInChild(root, pp, l, k - 1, |m.data|);
  }

  /** The child list after text node k is absorbed by text node k - 1: one text node holding both, and the same text overall. */
  lemma AbsorbList(s: seq<Node>, k: nat)
    requires 0 < k < |s| && s[k - 1].Text? && s[k].Text?
    ensures RemoveAt(s[k - 1 := Text(TextAbsorbed(s, k))], k) == s[..k - 1] + [Text(s[k - 1].data + s[k].data)] + s[k + 1..]
    ensures TextContentOf(RemoveAt(s[k - 1 := Text(TextAbsorbed(s, k))], k)) == TextContentOf(s)
    ensures RemoveAt(s[k - 1 := Text(TextAbsorbed(s, k))], k)[k - 1] == Text(TextAbsorbed(s, k))
  {
    var m := Text(TextAbsorbed(s, k));
    var l := RemoveAt(s[k - 1 := m], k);
    var d, e := s[k - 1].data, s[k].data;
    assert TextContent(m) == d + e;
    assert s[k..k] == [];
    assert TextContentOf(s[k..k]) == "";
    MergeListText(s, k - 1, k, m);
    TextAround(s, k - 1, k);
    var a, c := TextContentOf(s[..k - 1]), TextContentOf(s[k + 1..]);
    assert TextContentOf(l) == a + (d + e) + "" + c;
    assert TextContentOf(s) == a + d + "" + e + c;
  }

  /**
   * When the caret's container is an element after a text node, the text node
   * takes nothing from it and the element is removed with all its text; the
   * caret goes to the end of the text node.
   */
  lemma PreviousTextDropsElement(root: seq<Node>, pp: seq<nat>, k: nat)
    requires IsContainer(root, pp) && 0 < k < |ChildrenAt(root, pp)|
    requires pp == [] || At(root, pp).tag != SPAN
    requires ChildrenAt(root, pp)[k - 1].Text? && ChildrenAt(root, pp)[k].Element?
    ensures ValidPath(root, pp + [k])
    ensures PressAt(root, pp + [k]).Handled?
    ensures IsContainer(PressAt(root, pp + [k]).content, pp)
    ensures ChildrenAt(PressAt(root, pp + [k]).content, pp) == RemoveAt(ChildrenAt(root, pp), k)
    ensures |TextContentOf(PressAt(root, pp + [k]).content)| + |TextContent(ChildrenAt(root, pp)[k])|
         == |TextContentOf(root)|
    ensures CaretAtEndOfText(PressAt(root, pp + [k]).content, PressAt(root, pp + [k]).selection)
  {
    PreviousTextOutcome(root, pp, k);
    var s := ChildrenAt(root, pp);
    var m := Text(TextAbsorbed(s, k));
    assert TextAbsorbed(s, k) == s[k - 1].data + "" == s[k - 1].data;
    assert m == s[k - 1];
    UpdateSame(s, k - 1);
    var l := RemoveAt(s, k);
    ChildrenAtWith(root, pp, l);
    RemoveText(s, k);
    TextContentOfAt(s, k);
    TextContentOfWithLength(root, pp, l);
    assert l[k - 1] == m;
    CaretInChild(root, pp, l, k - 1, |m.data|);
  }

  /**
   * A previous line break is removed; the caret stays at the start of the same
   * node, and the text loses only what the break held (nothing, for a parsed
   * BR).
   */
  lemma PreviousBreakRemoved(root: seq<Node>, pp: seq<nat>, k: nat)
    requires IsContainer(root, pp) && 0 < k < |ChildrenAt(root, pp)|
    requires pp == [] || At(root, pp).tag != SPAN
    requires ChildrenAt(root, pp)[k - 1].Element? && ChildrenAt(root, pp)[k - 1].tag == BR
    ensures ValidPath(root, pp + [k])
    ensures PressAt(root, pp + [k]).Handled?
    ensures IsContainer(PressAt(root, pp + [k]).content, pp)
    ensures ChildrenAt(PressAt(root, pp + [k]).content, pp) == RemoveAt(ChildrenAt(root, pp), k - 1)
    ensures ValidCaret(PressAt(root, pp + [k]).content, PressAt(root, pp + [k]).selection)
    ensures At(PressAt(root, pp + [k]).content, PressAt(root, pp + [k]).selection.start.container)
         == ChildrenAt(root, pp)[k]
    ensures PressAt(root, pp + [k]).selection.start.offset == 0
    ensures |TextContentOf(PressAt(root, pp + [k]).content)| + |TextContent(ChildrenAt(root, pp)[k - 1])|
         == |TextContentOf(root)|
  {
    PreviousBreakOutcome(root, pp, k);
    var s := ChildrenAt(root, pp);
    var l := RemoveAt(s, k - 1);
    ChildrenAtWith(root, pp, l);
    RemoveText(s, k - 1);
    TextContentOfAt(s, k - 1);
    TextContentOfWithLength(root, pp, l);
    CaretInChild(root, pp, l, k - 1, 0);
  }

  /**
   * A previous span is replaced by a text node of its text; the caret goes to
   * the end of that text and the document's text is unchanged.
   */
  lemma PreviousSpanUnwrapped(root: seq<Node>, pp: seq<nat>, k: nat)
    requires IsContainer(root, pp) && 0 < k < |ChildrenAt(root, pp)|
    requires pp == [] || At(root, pp).tag != SPAN
    requires ChildrenAt(root, pp)[k - 1].Element? && ChildrenAt(root, pp)[k - 1].tag == SPAN
    ensures ValidPath(root, pp + [k])
    ensures PressAt(root, pp + [k]).Handled?
    ensures IsContainer(PressAt(root, pp + [k]).content, pp)
    ensures ChildrenAt(PressAt(root, pp + [k]).content, pp)
         == ChildrenAt(root, pp)[k - 1 := Text(TextContent(ChildrenAt(root, pp)[k - 1]))]
    ensures TextContentOf(PressAt(root, pp + [k]).content) == TextContentOf(root)
    ensures CaretAtEndOfText(PressAt(root, pp + [k]).content, PressAt(root, pp + [k]).selection)
  {
    PreviousSpanOutcome(root, pp, k);
    var s := ChildrenAt(root, pp);
    var t := Text(TextContent(s[k - 1]));
    ChildrenAtWith(root, pp, s[k - 1 := t]);
    UpdateText(s, k - 1, t);
    TextContentOfAt(s, k - 1);
    TextContentOfWith(root, pp, s[k - 1 := t]);
    CaretInChild(root, pp, s[k - 1 := t], k - 1, |t.data|);
  }

  lemma PreviousTextOutcome(root: seq<Node>, pp: seq<nat>, k: nat)
    requires IsContainer(root, pp) && 0 < k < |ChildrenAt(root, pp)|
    requires pp == [] || At(root, pp).tag != SPAN
    requires ChildrenAt(root, pp)[k - 1].Text?
    ensures ValidPath(root, pp + [k])
    ensures PressAt(root, pp + [k])
         == Handled(WithChildrenAt(root, pp, RemoveAt(ChildrenAt(root, pp)[k - 1 := Text(TextAbsorbed(ChildrenAt(root, pp), k))], k)),
                    Caret(Boundary(pp + [k - 1], |TextAbsorbed(ChildrenAt(root, pp), k)|)))
  {
    SiblingCase(root, pp, k);
  }

  /** The previous text node's data followed by the current node's, when that is text. */
  function TextAbsorbed(s: seq<Node>, k: nat): string
    requires 0 < k < |s| && s[k - 1].Text?
  {
    s[k - 1].data + (if s[k].Text? then s[k].data else "")
  }

  lemma PreviousBreakOutcome(root: seq<Node>, pp: seq<nat>, k: nat)
    requires IsContainer(root, pp) && 0 < k < |ChildrenAt(root, pp)|
    requires pp == [] || At(root, pp).tag != SPAN
    requires ChildrenAt(root, pp)[k - 1].Element? && ChildrenAt(root, pp)[k - 1].tag == BR
    ensures ValidPath(root, pp + [k])
    ensures PressAt(root, pp + [k])
         == Handled(WithChildrenAt(root, pp, RemoveAt(ChildrenAt(root, pp), k - 1)), Caret(Boundary(pp + [k - 1], 0)))
  {
    SiblingCase(root, pp, k);
  }

  lemma PreviousSpanOutcome(root: seq<Node>, pp: seq<nat>, k: nat)
    requires IsContainer(root, pp) && 0 < k < |ChildrenAt(root, pp)|
    requires pp == [] || At(root, pp).tag != SPAN
    requires ChildrenAt(root, pp)[k - 1].Element? && ChildrenAt(root, pp)[k - 1].tag == SPAN
    ensures ValidPath(root, pp + [k])
    ensures PressAt(root, pp + [k])
         == Handled(WithChildrenAt(root, pp, ChildrenAt(root, pp)[k - 1 := Text(TextContent(ChildrenAt(root, pp)[k - 1]))]),
                    Caret(Boundary(pp + [k - 1], |TextContent(ChildrenAt(root, pp)[k - 1])|)))
  {
    SiblingCase(root, pp, k);
  }

  /**
   * Outside a span, with no previous sibling or a previous element that is
   * neither a BR nor a SPAN, the key is cancelled and nothing changes.
   */
  lemma SiblingLeftAlone(root: seq<Node>, pp: seq<nat>, k: nat)
    requires IsContainer(root, pp) && k < |ChildrenAt(root, pp)|
    requires pp == [] || At(root, pp).tag != SPAN
    requires k == 0 || (ChildrenAt(root, pp)[k - 1].Element?
                        && ChildrenAt(root, pp)[k - 1].tag != BR && ChildrenAt(root, pp)[k - 1].tag != SPAN)
    ensures ValidPath(root, pp + [k])
    ensures PressAt(root, pp + [k]) == Handled(root, Caret(Boundary(pp + [k], 0)))
  {
    SiblingCase(root, pp, k);
  }
}
