/**
 * Putting the caret back after the input handler has cleaned the document.
 *
 * The caret position is carried across the rewrite as an offset into the
 * flattened text. A tree walker that shows only text nodes visits them in
 * document order; the caret goes into the first one whose end reaches the
 * offset, or, when the offset is past all text, to the end of the region's
 * last child.
 */
module Cursor {
  import opened Dom

  /** A text node the walker visits: where it is and what it holds. */
  datatype Run = Run(path: seq<nat>, data: string)

  /** The text nodes of the children of `ns` from index k on, in document order; `parent` is the path of their parent. */
  function RunsFrom(ns: seq<Node>, parent: seq<nat>, k: nat): seq<Run>
    requires k <= |ns|
    decreases ns, |ns| - k
  {
    if k == |ns| then [] else RunsOf(ns[k], parent + [k]) + RunsFrom(ns, parent, k + 1)
  }

  function RunsOf(n: Node, at: seq<nat>): seq<Run>
    decreases n
  {
    match n
    case Text(d) => [Run(at, d)]
    case Element(_, _, ch) => RunsFrom(ch, at, 0)
  }

  /** `createTreeWalker(root, NodeFilter.SHOW_TEXT)`: every text node below the root, in document order. */
  function TextRuns(root: seq<Node>): seq<Run>
  {
    RunsFrom(root, [], 0)
  }

  /** The number of characters in the runs. */
  function Total(runs: seq<Run>): nat
  {
    if runs == [] then 0 else Total(runs[..|runs| - 1]) + |runs[|runs| - 1].data|
  }

  /** Some run ends at or past the offset. */
  predicate Reaches(runs: seq<Run>, position: nat)
  {
    runs != [] && position <= Total(runs)
  }

  /** The number of characters up to the end of run j. */
  function End(runs: seq<Run>, j: nat): nat
    requires j < |runs|
  {
    Total(runs[..j + 1])
  }

  function Joined(runs: seq<Run>): string
  {
    if runs == [] then "" else Joined(runs[..|runs| - 1]) + runs[|runs| - 1].data
  }

  /**
   * Where `restoreCursorPosition` puts the caret for a character offset:
   * inside the first text node whose end is at or past the offset, at the
   * offset that remains; when no text node reaches it, at the end of the last
   * child if that is text, or after the last child otherwise; nowhere in an
   * empty region.
   */
  predicate Restored(root: seq<Node>, position: nat, target: Option<Boundary>)
  {
    if Reaches(TextRuns(root), position) then
      exists k :: 0 <= k < |TextRuns(root)|
        && Total(TextRuns(root)[..k]) <= position <= End(TextRuns(root), k)
        && (forall j :: 0 <= j < k ==> End(TextRuns(root), j) < position)
        && target == Some(Boundary(TextRuns(root)[k].path, position - Total(TextRuns(root)[..k])))
    else
      target == Fallback(root)
  }

  /** The caret when no text node reaches the offset: the end of the last child, into it when it is text. */
  function Fallback(root: seq<Node>): Option<Boundary>
  {
    if root == [] then None
    else if root[|root| - 1].Text? then Some(Boundary([|root| - 1], |root[|root| - 1].data|))
    else Some(Boundary([], |root|))
  }

  /**
   * `restoreCursorPosition`: the caret for flattened offset `position`, or None
   * when the region is empty and the selection is left untouched.
   *
   * When some run reaches the offset, the caret goes into the first run k whose
   * end is at or past it, at the offset within that run (so at a boundary
   * between two runs the earlier run's end wins), and text before the caret
   * adds up to `position`. Otherwise it goes to the end of the last child: into
   * it when it is text, after it when it is an element.
   */
  method RestoreCursorPosition(root: seq<Node>, position: nat) returns (target: Option<Boundary>)
    ensures Restored(root, position, target)
    ensures target.None? <==> root == []
    ensures target.Some? ==> ValidBoundary(root, target.value)
    ensures Reaches(TextRuns(root), position) ==>
      target.Some? && ValidPath(root, target.value.container)
      && At(root, target.value.container).Text?
      && target.value.offset <= |At(root, target.value.container).data|
  {
    var runs := TextRuns(root);
    var currentPos := 0;
    var targetNode: Option<Run> := None;
    var targetOffset: nat := 0;
    var i := 0;
    while i < |runs|
      invariant i <= |runs|
      invariant currentPos == Total(runs[..i]) <= position
      invariant forall j :: 0 <= j < i ==> End(runs, j) < position
      invariant targetNode.None?
    {
      var nodeLength := |runs[i].data|;
      EndStep(runs, i);
      if currentPos + nodeLength >= position {
        targetNode := Some(runs[i]);
        targetOffset := position - currentPos;
        break;
      }
      currentPos := currentPos + nodeLength;
      i := i + 1;
    }
    if targetNode.Some? {
      target := Some(Boundary(targetNode.value.path, targetOffset));
      FoundRestored(root, position, i);
    } else {
      assert !Reaches(runs, position) by {
        if runs != [] {
          assert runs[..|runs|] == runs;
          assert End(runs, |runs| - 1) < position;
        }
      }
      if |root| > 0 {
        var lastNode := root[|root| - 1];
        if lastNode.Text? {
          target := Some(Boundary([|root| - 1], |lastNode.data|));
        } else {
          target := Some(Boundary([], |root|));
        }
      } else {
        target := None;
      }
      FallbackValid(root);
    }
  }

  /** The first run that reaches the offset gives the caret `Restored` describes, inside a text node of the document. */
  lemma FoundRestored(root: seq<Node>, position: nat, i: nat)
    requires i < |TextRuns(root)|
    requires Total(TextRuns(root)[..i]) <= position <= End(TextRuns(root), i)
    requires forall j :: 0 <= j < i ==> End(TextRuns(root), j) < position
    ensures var b := Boundary(TextRuns(root)[i].path, position - Total(TextRuns(root)[..i]));
      Restored(root, position, Some(b))
      && ValidPath(root, b.container) && At(root, b.container).Text?
      && b.offset <= |At(root, b.container).data| && ValidBoundary(root, b)
  {
    var runs := TextRuns(root);
    FoundRun(root, i);
    EndStep(runs, i);
  }

  /** The fallback caret is a valid boundary, and there is one exactly when the region is not empty. */
  lemma FallbackValid(root: seq<Node>)
    ensures Fallback(root).None? <==> root == []
    ensures Fallback(root).Some? ==> ValidBoundary(root, Fallback(root).value)
  {
    if root != [] && root[|root| - 1].Text? {
      assert At(root, [|root| - 1]) == root[|root| - 1];
    }
  }

  /** The total up to the end of run i is the total before it plus its length. */
  lemma EndStep(runs: seq<Run>, i: nat)
    requires i < |runs|
    ensures End(runs, i) == Total(runs[..i]) + |runs[i].data|
  {
    assert runs[..i + 1][..i] == runs[..i];
  }

  /** Run i of the walk names a text node of the document holding its data, and the runs before it hold no more than all of them. */
  lemma FoundRun(root: seq<Node>, i: nat)
    requires i < |TextRuns(root)|
    ensures ValidPath(root, TextRuns(root)[i].path) && At(root, TextRuns(root)[i].path) == Text(TextRuns(root)[i].data)
    ensures End(TextRuns(root), i) <= Total(TextRuns(root))
  {
    var runs := TextRuns(root);
    assert runs[i] in runs;
    RunsFromValid(root, [], 0);
    TotalPrefix(runs, i + 1);
  }

  /** A prefix of the runs holds no more text than all of them. */
  lemma {:induction false} TotalPrefix(runs: seq<Run>, m: nat)
    requires m <= |runs|
    ensures Total(runs[..m]) <= Total(runs)
    decreases |runs|
  {
    if m < |runs| {
      var init := runs[..|runs| - 1];
      assert init[..m] == runs[..m];
      TotalPrefix(init, m);
    } else {
      assert runs[..m] == runs;
    }
  }

  // ---------------------------------------------------------------------------
  // The walker visits exactly the text nodes

  lemma {:induction false} JoinedAppend(a: seq<Run>, b: seq<Run>)
    ensures Joined(a + b) == Joined(a) + Joined(b)
    decreases |b|
  {
    if b == [] {
      assert a + b == a;
    } else {
      var b' := b[..|b| - 1];
      var last := b[|b| - 1];
      assert (a + b)[..|a + b| - 1] == a + b';
      assert (a + b)[|a + b| - 1] == last;
      assert Joined(a + b) == Joined(a + b') + last.data;
      JoinedAppend(a, b');
      assert Joined(b) == Joined(b') + last.data;
    }
  }

  lemma {:induction false} TotalIsLength(runs: seq<Run>)
    ensures Total(runs) == |Joined(runs)|
    decreases |runs|
  {
    if runs != [] {
      TotalIsLength(runs[..|runs| - 1]);
    }
  }

  /** Read in walker order, the text nodes spell the region's textContent. */
  lemma {:induction false} RunsFromText(ns: seq<Node>, parent: seq<nat>, k: nat)
    requires k <= |ns|
    ensures Joined(RunsFrom(ns, parent, k)) == TextContentOf(ns[k..])
    decreases ns, |ns| - k
  {
    if k < |ns| {
      RunsOfText(ns[k], parent + [k]);
      RunsFromText(ns, parent, k + 1);
      JoinedAppend(RunsOf(ns[k], parent + [k]), RunsFrom(ns, parent, k + 1));
      assert ns[k..][1..] == ns[k + 1..];
    }
  }

  lemma {:induction false} RunsOfText(n: Node, at: seq<nat>)
    ensures Joined(RunsOf(n, at)) == TextContent(n)
    decreases n
  {
    match n
    case Text(d) =>
      assert [Run(at, d)][..0] == [];
    case Element(_, _, ch) =>
      RunsFromText(ch, at, 0);
      assert ch[0..] == ch;
  }

  /** The walker's offsets run over the whole flattened text: its total is the length of textContent. */
  lemma TextRunsCoverText(root: seq<Node>)
    ensures Joined(TextRuns(root)) == TextContentOf(root)
    ensures Total(TextRuns(root)) == |TextContentOf(root)|
  {
    RunsFromText(root, [], 0);
    assert root[0..] == root;
    TotalIsLength(TextRuns(root));
  }

  /** Every run the walker reports is a text node of the document, at the path it names. */
  lemma {:induction false} RunsFromValid(root: seq<Node>, parent: seq<nat>, k: nat)
    requires IsContainer(root, parent) && k <= |ChildrenAt(root, parent)|
    ensures forall r :: r in RunsFrom(ChildrenAt(root, parent), parent, k) ==>
      ValidPath(root, r.path) && At(root, r.path) == Text(r.data)
    decreases ChildrenAt(root, parent), |ChildrenAt(root, parent)| - k
  {
    var ns := ChildrenAt(root, parent);
    if k < |ns| {
      ChildPath(root, parent, k);
      RunsOfValid(root, parent + [k]);
      RunsFromValid(root, parent, k + 1);
    }
  }

  lemma {:induction false} RunsOfValid(root: seq<Node>, p: seq<nat>)
    requires ValidPath(root, p)
    ensures forall r :: r in RunsOf(At(root, p), p) ==>
      ValidPath(root, r.path) && At(root, r.path) == Text(r.data)
    decreases At(root, p)
  {
    match At(root, p)
    case Text(d) =>
    case Element(_, _, ch) =>
      ChildrenOfElement(root, p);
      RunsFromValid(root, p, 0);
  }
}
