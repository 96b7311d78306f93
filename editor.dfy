/**
 * The editor page: the editable region's document and the window's selection,
 * and the handlers that change them.
 *
 * The page starts from a fixed document. Every input event cleans the
 * document's markup (writing it back only when cleaning changed it) and puts the caret
 * back at the same offset into the text; the Backspace key, the style
 * buttons and the reset button edit the document and move the selection; the
 * copy button exports the document as an ANSI code block.
 */
module Editor {
  import opened Dom
  import opened AnsiClass
  import Encoder
  import Sanitizer
  import Markup
  import Cursor
  import Backspace
  import Styling

  const NBSP: char := 160 as char

  /** A span of class `ansi-<code>` around the given children, as the initial markup writes them. */
  function Styled(code: string, children: seq<Node>): Node
  {
    Element(SPAN, "ansi-" + code, children)
  }

  function ColourSpan(code: string, t: string): Node
  {
    Styled(code, [Text(t)])
  }

  /**
   * The initial content: "Welcome to Rebane's Discord Colored Text
   * Generator!", with "Rebane" gold, "Discord" white on blurple, and each
   * letter of "Colored" in its own colour from 31 to 37.
   */
  function Seed(): seq<Node>
  {
    [ Text("Welcome to" + [NBSP]),
      ColourSpan("33", "Rebane"),
      Text("'s "),
      Styled("45", [ColourSpan("37", "Discord")]),
      Text([NBSP]),
      ColourSpan("31", "C"), ColourSpan("32", "o"), ColourSpan("33", "l"), ColourSpan("34", "o"),
      ColourSpan("35", "r"), ColourSpan("36", "e"), ColourSpan("37", "d"),
      Text([NBSP] + "Text Generator!") ]
  }

  class Editor {
    /** The children of the editable region. */
    var root: seq<Node>
    /** The window's selection. */
    var selection: Selection

    constructor ()
      ensures root == Seed() && selection == NoRange
    {
      root := Seed();
      selection := NoRange;
    }

    /**
     * `handleInput`: with no range nothing happens. Otherwise the current
     * markup is parsed into a scratch element, cleaned there and serialised;
     * when that string differs from the current markup it is written back
     * (and parsed again by the region). Markup strings are modelled by the
     * trees they parse to, so two strings are equal exactly when those trees
     * are. Writing the markup back removes every child of the region, and
     * the DOM moves a range inside a removed node to offset 0 of the region,
     * so a rewrite leaves a caret at the start of the region. The caret is
     * then put back at flattened offset `position` (the offset measured
     * before the rewrite; how it is measured is not part of this model),
     * which does nothing when the region is empty.
     */
    method HandleInput(position: nat)
      modifies this
      ensures old(selection).NoRange? ==> root == old(root) && selection == old(selection)
      ensures old(selection).Range? ==> root == Markup.AfterInput(old(root))
      ensures TextContentOf(root) == TextContentOf(old(root))
      ensures old(selection).Range? ==>
        Sanitizer.AllWellFormed(root) && (root == old(root) <==> Sanitizer.AllWellFormed(old(root)))
      ensures old(selection).Range? && root != [] ==>
        exists t :: Cursor.Restored(root, position, Some(t)) && selection == Caret(t) && ValidBoundary(root, t)
      ensures old(selection).Range? && root == [] ==>
        selection == (if root == old(root) then old(selection) else Caret(Boundary([], 0)))
    {
      if selection.NoRange? {
        return;
      }
      var currentHTML := Markup.ReparseAll(root);
      var cleaned := Sanitizer.CleanChildren(currentHTML);
      var cleanHTML := Markup.ReparseAll(cleaned);
      if cleanHTML != currentHTML {
        root := cleanHTML;
        selection := Caret(Boundary([], 0));
      }
      Markup.AfterInputKeepsText(old(root));
      Markup.AfterInputWellFormed(old(root));
      var target := Cursor.RestoreCursorPosition(root, position);
      if target.Some? {
        selection := Caret(target.value);
        assert Cursor.Restored(root, position, Some(target.value));
      }
    }

    /** The Backspace key: the handler's outcome becomes the new state; it reports whether the key was cancelled. */
    method HandleBackspace() returns (prevented: bool)
      requires Backspace.InDocument(root, selection)
      modifies this
      ensures prevented <==> !Backspace.Backspace(old(root), old(selection)).Default?
      ensures !prevented ==> root == old(root) && selection == old(selection)
      ensures prevented ==>
        root == Backspace.Backspace(old(root), old(selection)).content
        && selection == Backspace.Backspace(old(root), old(selection)).selection
      ensures prevented ==> Backspace.ValidCaret(root, selection)
      ensures Sanitizer.AllWellFormed(old(root)) ==> Sanitizer.AllWellFormed(root)
    {
      Backspace.BackspaceCaretValid(root, selection);
      if Sanitizer.AllWellFormed(root) {
        Backspace.BackspaceKeepsWellFormed(root, selection);
      }
      var outcome := Backspace.Backspace(root, selection);
      match outcome
      case Default =>
        prevented := false;
      case Handled(content, sel) =>
        root, selection := content, sel;
        prevented := true;
      case Aborted(content, sel) =>
        root, selection := content, sel;
        prevented := true;
    }

    /** A style button: the selected text becomes one span of class `ansi-<code>`, and is selected again. */
    method ApplyStyle(code: string)
      requires selection.Range? ==> Styling.InOneNode(root, selection)
      modifies this
      ensures root == Styling.ApplyStyle(old(root), old(selection), code).content
      ensures selection == Styling.ApplyStyle(old(root), old(selection), code).selection
      ensures TextContentOf(root) == TextContentOf(old(root))
    {
      Styling.ApplyStyleKeepsText(root, selection, code);
      var r := Styling.ApplyStyle(root, selection, code);
      root, selection := r.content, r.selection;
    }

    /** The reset button: the region becomes its text, unstyled. */
    method ResetAll()
      modifies this
      ensures root == Styling.ResetAll(old(root), old(selection)).content
      ensures selection == Styling.ResetAll(old(root), old(selection)).selection
      ensures TextContentOf(root) == TextContentOf(old(root))
    {
      Styling.ResetAllKeepsText(root, selection);
      var r := Styling.ResetAll(root, selection);
      root, selection := r.content, r.selection;
    }

    /**
     * `copyToClipboard`: the text handed to the clipboard, the encoding of the
     * region between "```ansi\n" and "\n```", starting from the unset entry.
     */
    method CopyToClipboard() returns (ansiText: string)
      ensures ansiText == Encoder.Export(root)
    {
      var body, _ := Encoder.NodesToAnsi(root, [Encoder.Sentinel]);
      ansiText := "```ansi\n" + body + "\n```";
    }
  }

  // ---------------------------------------------------------------------------
  // The initial document

  /** A span whose class is `ansi-` and a non-empty run of digits is one the cleaner keeps. */
  lemma StyledKept(code: string, children: seq<Node>)
    requires code != [] && AllDigits(code)
    ensures Sanitizer.Kept(Styled(code, children).tag, Styled(code, children).className)
  {
    ClassOfDigits(code);
  }

  lemma StyledWellFormed(code: string, children: seq<Node>)
    requires code != [] && AllDigits(code) && Sanitizer.AllWellFormed(children)
    ensures Sanitizer.WellFormed(Styled(code, children))
  {
    ClassOfDigits(code);
  }

  lemma ColourSpanWellFormed(code: string, t: string)
    requires code != [] && AllDigits(code)
    ensures Sanitizer.WellFormed(ColourSpan(code, t))
  {
    StyledWellFormed(code, [Text(t)]);
  }

  /** The initial document is already clean, so the first input event does not rewrite it. */
  lemma SeedIsClean()
    ensures Sanitizer.AllWellFormed(Seed())
  {
    var s := Seed();
    forall j | 0 <= j < |s| ensures Sanitizer.WellFormed(s[j]) {
      if j == 3 {
        ColourSpanWellFormed("37", "Discord");
        StyledWellFormed("45", [ColourSpan("37", "Discord")]);
      } else if s[j].Element? {
        SeedSpanWellFormed(j);
      }
    }
  }

  /** Every span of the initial document other than the blurple one is a colour span around one text node. */
  lemma SeedSpanWellFormed(j: nat)
    requires j < |Seed()| && j != 3 && Seed()[j].Element?
    ensures Sanitizer.WellFormed(Seed()[j])
  {
    var s := Seed();
    var code := s[j].className[5..];
    assert s[j] == ColourSpan(code, s[j].children[0].data);
    ColourSpanWellFormed(code, s[j].children[0].data);
  }

  /**
   * Each letter of "Colored" exports as `ESC[2;3x m`, the letter, `ESC[0m`:
   * a colour span at the bottom of the stack restores nothing.
   */
  lemma SeedColouredLetters()
    ensures forall i :: 5 <= i < 12 ==>
      Encoder.EncodeNode(Seed()[i], Encoder.Sentinel)
        == Encoder.Sgr(Encoder.Unset, 26 + i) + Seed()[i].children[0].data + Encoder.Reset
  {
    var s := Seed();
    forall i | 5 <= i < 12
      ensures Encoder.EncodeNode(s[i], Encoder.Sentinel)
           == Encoder.Sgr(Encoder.Unset, 26 + i) + s[i].children[0].data + Encoder.Reset
    {
      assert Decimal(26 + i) == s[i].className[5..];
      assert s[i] == Element(SPAN, "ansi-" + Decimal(26 + i), [Text([s[i].children[0].data[0]])]);
      Encoder.ColouredLetter(s[i].children[0].data[0], 26 + i);
    }
  }

  /**
   * "Discord", white inside blurple: the background opens, the foreground
   * opens with the inherited style, and when the white span closes the
   * blurple background is restored before the outer span closes.
   */
  lemma SeedNestedBackground()
    ensures Encoder.EncodeNode(Seed()[3], Encoder.Sentinel)
         == Encoder.Sgr(Encoder.Unset, 45) + Encoder.Sgr(Encoder.Unset, 37) + "Discord"
          + Encoder.Reset + Encoder.Sgr(Encoder.Unset, 45) + Encoder.Reset
  {
    assert Decimal(45) == "45" && Decimal(37) == "37";
    assert Seed()[3] == Element(SPAN, "ansi-" + Decimal(45), [Element(SPAN, "ansi-" + Decimal(37), [Text("Discord")])]);
    Encoder.ColourInBackground("Discord", 37, 45);
  }
}
