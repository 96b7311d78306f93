# Discord coloured text editor, modelled in Dafny

The page `app/page.tsx` is an editor for Discord messages with coloured text.
It has a `contenteditable` region. Style buttons wrap the selected text in
`<span class="ansi-N">`. A reset button strips every style. A copy button
exports the region as a Discord `ansi` code block, using ECMA-48 SGR escape
sequences (`ESC[a;bm`). After every input event the region's markup is cleaned
and the caret is put back. The Backspace key has its own handler for merging
and unwrapping spans.

This project models that core as values and proves what it does:

- `Dom`: the region's document as a tree value.
  - A node is `Text(data)` or `Element(tag, className, children)`.
  - Nodes are addressed by index paths, and the empty path is the region itself.
  - `textContent` and the DOM's node length are defined here, along with the
    selection: no range, or a range between two boundaries (a container and an offset).
- `AnsiClass`: the class test `/ansi-\d+/`, and `className.match(/ansi-(\d+)/)`
  followed by `parseInt`. Decimal printing and its round trip also live here.
- `Encoder`: `nodesToANSI` and the text `copyToClipboard` builds.
  - `EncodeNodes` is the specification.
  - `NodesToAnsi` is the loop. The stack is passed by value into each
    recursive call and handed back, where the page pushes onto and pops one
    shared array. It is proved to produce exactly the specification and to
    hand back the stack it was given.
  - `SpanEncoding`, `RestoreCases` and `LeafEncoding` spell out the encoder's
    cases one by one. The evidence that the encoder is right is
    `VisibleEncoding` (a reader of the exported text sees exactly the
    editor's text), `NodesToAnsi` and the worked examples on the initial
    content.
- `Sanitizer`: `cleanContentEditableHTML`.
  - `Clean` and `CleanAll` specify it.
  - `CleanNode` and `CleanChildren` are the walk over the child snapshots.
  - Proved: cleaning keeps the text, its output is well-formed, it is
    idempotent, and it leaves a document unchanged exactly when that document
    is already well-formed.
- `Markup`: what `innerHTML` does to a tree when it is serialised and parsed
  back. Adjacent text nodes come back as one, and empty ones are gone.
  - `AfterInput` is the input handler's rewrite: parse, clean, serialise, and
    write back only when the markup string changed.
  - Proved: the round trip keeps the text and the elements, and is idempotent.
    The rewrite happens exactly when the region is not in the cleaner's shape,
    and it leaves the region in that shape.
- `Cursor`: `restoreCursorPosition`. It is a loop over the text nodes in
  document order, proved against a characterisation of the first text node
  that reaches the offset, with the fallback to the end of the region.
- `Backspace`: the Backspace branch of `handleKeyDown`, as a function from the
  document and the selection to an outcome.
  - The outcome is either the browser default, or the key cancelled with a new
    document and selection.
  - A third outcome covers the case where placing the caret throws.
  - One lemma per branch states what that branch does to the text and where
    the caret goes. Further lemmas prove that the caret is always a valid
    boundary and that the handler keeps the cleaner's shape.
- `Styling`: `applyStyle` and `resetAll` as functions on the document and the
  selection, with their text-preservation, selection and idempotence properties.
- `Editor`: the page's state as a class.
  - Its fields are the document and the selection.
  - Its methods are the handlers: `handleInput`, the Backspace key,
    `applyStyle`, `resetAll` and `copyToClipboard`.
  - It also holds the initial content and lemmas about how that content exports.

Integers are unbounded. The style stack holds three natural numbers, and 2
stands for "unset", as in the code.

## Model

| member | source | states |
|---|---|---|
| AnsiClass.MatchFrom | app/page.tsx:208 | the leftmost index at or after i where `ansi-` and a digit start; no match before it; None only when no index matches |
| AnsiClass.DigitRun | app/page.tsx:351 | the greedy `\d+` run: every character in it is a digit, and the next one is not |
| AnsiClass.AnsiCode | app/page.tsx:351-354 | a code is read exactly when the class passes the sanitizer's test `/ansi-\d+/` |
| AnsiClass.Decimal | app/page.tsx:362-364 | a number prints as a non-empty digit string with no leading zero |
| AnsiClass.DecimalRoundTrip | app/page.tsx:354-364 | parseInt of the printed decimal gives the number back |
| AnsiClass.ClassOfDigits | app/page.tsx:78 | the class `ansi-<digits>` a style button creates is read back by the encoder as the value of those digits |
| AnsiClass.ClassOfNumber | app/page.tsx:351-354 | the encoder reads `ansi-` followed by the decimal of n as code n |
| Encoder.Export | app/page.tsx:384-387 | the copied text is "```ansi\n", then the encoding of the region from the unset entry, then "\n```" |
| Encoder.NodesToAnsi | app/page.tsx:331-379 | the loop's output equals the recursive encoding from the stack's top entry, and the stack is handed back as it was passed in |
| Encoder.SpanEncoding | app/page.tsx:350-376 | a span with code c changes exactly one field of the entry: style below 30, foreground below 40, background otherwise; it opens with `ESC[st;fg m` or `ESC[st;bg m` and closes with `ESC[0m` and the enclosing entry's restoration |
| Encoder.RestoreCases | app/page.tsx:369-376 | restoration emits the foreground sequence exactly when the foreground is set and the background sequence exactly when the background is set; nothing at the bottom of the stack |
| Encoder.LeafEncoding | app/page.tsx:341-352 | text is copied verbatim, a BR becomes a newline, an element without an ansi class emits nothing, its children included |
| Encoder.EncodeNodesAppend | app/page.tsx:340-377 | the encoding of two sibling lists is the concatenation of their encodings |
| Encoder.ColouredLetter | app/page.tsx:355-376 | a one-letter colour span at the bottom of the stack is `ESC[2;c m`, the letter and `ESC[0m`, with no restoration |
| Encoder.StyleInColour | app/page.tsx:355-376 | a style span inside a colour entry opens with both codes and restores the colour when it closes |
| Encoder.NestedStyleInColour | app/page.tsx:355-376 | in a colour span holding text, a style span and text, the colour is re-established after the style span closes |
| Encoder.ColourUnderBackground | app/page.tsx:355-376 | a colour span inside a background entry opens with the unset style and restores the background when it closes |
| Encoder.ColourInBackground | app/page.tsx:355-376 | a colour span nested in a background span exports as background, colour, text, reset, background again, reset |
| Encoder.VisibleSgr | app/page.tsx:362-364 | a reader skips an SGR opening sequence |
| Encoder.VisibleReset | app/page.tsx:367 | a reader skips the reset sequence |
| Encoder.VisibleRestore | app/page.tsx:369-376 | a reader skips the restoration sequences |
| Encoder.VisiblePlain | app/page.tsx:341-343 | text without ESC is shown as it is |
| Encoder.VisibleEncodeNode | app/page.tsx:340-377 | for an encodable node, what the reader sees of its encoding is its rendered text (text, with a newline per BR) |
| Encoder.VisibleEncodeNodes | app/page.tsx:340-377 | the same for a list of siblings |
| Encoder.VisibleEncoding | app/page.tsx:384-387 | the exported body shows exactly the text the editor shows |
| Encoder.IndexOfM | app/page.tsx:362-364 | the end of an escape sequence: the first 'm' at or after i, with no 'm' before it |
| Sanitizer.CleanAll | app/page.tsx:223 | cleaning a list keeps its length and cleans each child at its own index |
| Sanitizer.CleanNode | app/page.tsx:189-220 | the walk over one node equals `Clean`: text is kept; an element other than SPAN or BR, or a SPAN without an ansi class, becomes one text node of its text; a kept element has its children cleaned |
| Sanitizer.CleanChildren | app/page.tsx:218 | the loop over the snapshot of a child list, replacing in place, equals `CleanAll` |
| Sanitizer.CleanKeepsText | app/page.tsx:199-214 | cleaning a node keeps its textContent |
| Sanitizer.CleanAllKeepsText | app/page.tsx:183-226 | cleaning the region keeps its textContent |
| Sanitizer.CleanIsWellFormed | app/page.tsx:189-220 | after cleaning, every element of a node is a BR or an ansi span, all the way down |
| Sanitizer.CleanAllIsWellFormed | app/page.tsx:183-226 | after cleaning, the whole region is well-formed |
| Sanitizer.CleanFixesWellFormed | app/page.tsx:189-220 | a well-formed node is left exactly as it is |
| Sanitizer.CleanAllFixesWellFormed | app/page.tsx:183-226 | a well-formed region is left exactly as it is |
| Sanitizer.CleanUnchangedIff | app/page.tsx:116-120 | cleaning leaves the region unchanged if and only if it is well-formed, which is when the input handler skips the rewrite |
| Sanitizer.CleanIdempotent | app/page.tsx:116-120 | cleaning twice is cleaning once, so a rewrite does not trigger another rewrite |
| Sanitizer.KeptSpanHasCode | app/page.tsx:207-215 | every span the cleaner keeps has a class the encoder reads a code from |
| Sanitizer.WellFormedIsEncodable | app/page.tsx:183-226 | a cleaned node with no ESC in its text is one the encoder renders without losing text |
| Sanitizer.AllWellFormedIsEncodable | app/page.tsx:183-226 | the same for a list of nodes |
| Sanitizer.CleanedExportShowsText | app/page.tsx:183-226 | after cleaning, the exported body shows exactly the region's rendered text |
| Sanitizer.ChildrenAtWellFormed | app/page.tsx:218 | every child list inside a well-formed document is well-formed |
| Sanitizer.WithChildrenAtWellFormed | app/page.tsx:218 | replacing a child list of a well-formed document by a well-formed list keeps the document well-formed |
| Markup.AttachText | app/page.tsx:185 | putting a parsed node in front of a parsed list, with text joining, keeps the text |
| Markup.ReparseAllKeepsText | app/page.tsx:185 | parsing serialised markup gives back the same text |
| Markup.ReparseAllIsParsed | app/page.tsx:185 | what the parser builds has no empty text node and no two adjacent text nodes |
| Markup.ReparseAllFixesParsed | app/page.tsx:185 | a tree in the parser's shape survives the round trip unchanged |
| Markup.ReparseUnchangedIff | app/page.tsx:185 | the round trip changes a tree exactly when it is not in the parser's shape, and doing it twice is doing it once |
| Markup.ReparseAllKeepsElements | app/page.tsx:185 | the round trip keeps every element |
| Markup.ReparseAllWellFormed | app/page.tsx:185 | a tree is in the cleaner's shape exactly when its round trip is |
| Markup.CleanAllRemovesElements | app/page.tsx:196-213 | cleaning never adds an element, and removes at least one from a tree not in its shape |
| Markup.RewriteSkippedIff | app/page.tsx:114-117 | the cleaned markup equals the current markup exactly when the region is already in the cleaner's shape |
| Markup.AfterInputKeepsText | app/page.tsx:110-119 | the input handler's rewrite keeps the text |
| Markup.AfterInputWellFormed | app/page.tsx:110-119 | after the rewrite the region is well-formed, it was rewritten exactly when it was not, and a rewritten region is in the parser's shape |
| Markup.AfterInputIdempotent | app/page.tsx:110-119 | a second input event with no edit in between changes nothing |
| Markup.EmptyBoldEmptiesRegion | app/page.tsx:110-119 | an empty bold element is cleaned into an empty text node, which the round trip drops, so the region is emptied |
| Markup.BoldAfterTextJoins | app/page.tsx:110-119 | a text node followed by a bold element becomes one text node holding both texts |
| Cursor.RestoreCursorPosition | app/page.tsx:135-180 | when some text node reaches the offset, the caret goes into the first text node whose end is at or past it, at the remaining offset, inside a text node; otherwise the caret goes to the end of the last text child, or after the last element child; there is a caret exactly when the region is not empty, and it is always a valid boundary |
| Cursor.EndStep | app/page.tsx:152-160 | the offset at the end of a text node is the offset before it plus its length |
| Cursor.FoundRun | app/page.tsx:150-158 | the node the walker stops at is a text node of the document, and the offset there is within the total text |
| Cursor.TextRunsCoverText | app/page.tsx:140-161 | the walker's text nodes spell the region's textContent, so the offsets cover exactly the text |
| Cursor.RunsFromText | app/page.tsx:140-144 | the text nodes of a child list, in order, spell that list's textContent |
| Cursor.RunsOfText | app/page.tsx:140-144 | the text nodes under a node, in order, spell its textContent |
| Cursor.TotalIsLength | app/page.tsx:152-160 | the running total over walker nodes is the length of their joined text |
| Cursor.RunsFromValid | app/page.tsx:150-151 | every node the walker reports is a text node of the document, at the path it names |
| Cursor.RunsOfValid | app/page.tsx:150-151 | the same for the text nodes under one node |
| Backspace.Backspace | app/page.tsx:232-250 | the key is cancelled exactly when the selection is a caret at offset 0; at the start of the region nothing changes |
| Backspace.SpanBoundary | app/page.tsx:255-286 | inside a span the key is always cancelled |
| Backspace.SiblingBoundary | app/page.tsx:287-326 | outside a span the key is always cancelled |
| Backspace.MergeSpans | app/page.tsx:259-274 | merging into the previous span always cancels the key |
| Backspace.Unwrap | app/page.tsx:275-286 | unwrapping a span always cancels the key |
| Backspace.Merged | app/page.tsx:261-263 | the merged span keeps the previous span's tag and class |
| Backspace.PrevElement | app/page.tsx:257 | `previousElementSibling`: the nearest element before the node, with only text in between; None when only text precedes it |
| Backspace.PrevElementSkipsText | app/page.tsx:257 | an element followed only by text nodes is the previous element sibling |
| Backspace.RemoveAt | app/page.tsx:264 | removing child k keeps the children before it and shifts the ones after it down by one |
| Backspace.SiblingCase | app/page.tsx:287 | a caret at offset 0 of a child of a non-span container takes the sibling branch |
| Backspace.SpanCase | app/page.tsx:255 | a caret at offset 0 of a node inside a span takes the span branch |
| Backspace.AdjacentSpansMerge | app/page.tsx:259-274 | two adjacent spans with text become one span with the first span's class, holding both texts as one text node; the text is unchanged and the caret sits at the end of the merged text |
| Backspace.AdjacentMergeOutcome | app/page.tsx:259-274 | for two adjacent spans with text, the outcome is the merged list with the caret in its one text node |
| Backspace.AdjacentMergeList | app/page.tsx:261-264 | the child list after merging two adjacent spans, and its unchanged text |
| Backspace.MergeSpansHandled | app/page.tsx:259-274 | when both spans hold text, placing the caret does not throw |
| Backspace.MergedListText | app/page.tsx:261-264 | after a merge, the second span's text follows the first span's |
| Backspace.MergeAcrossText | app/page.tsx:257-264 | when text lies between the two spans, the second span's text moves ahead of that text, so the document's text is reordered |
| Backspace.EmptySpanMergeDrops | app/page.tsx:261-264 | when either span's text is empty, the first span is left as it is and the second is removed with its text |
| Backspace.EmptySpanAfterSplitSpanAborts | app/page.tsx:266-271 | an empty span after a span holding two text nodes makes placing the caret throw, because the offset is past the end of the last text node |
| Backspace.SpanUnwrapped | app/page.tsx:275-286 | with no previous span, the span becomes a text node of its text; the text is unchanged and the caret sits at its end |
| Backspace.PreviousTextAbsorbs | app/page.tsx:289-306 | a previous text node absorbs the current text node, which is removed; the text is unchanged and the caret sits at the end of the merged text |
| Backspace.AbsorbList | app/page.tsx:291-299 | the child list after absorption, and its unchanged text |
| Backspace.PreviousTextDropsElement | app/page.tsx:289-306 | when the container is an element after a text node, the element is removed with all its text and the caret sits at the end of the text node |
| Backspace.PreviousBreakRemoved | app/page.tsx:309-310 | a previous BR is removed, and the caret stays at the start of the same node |
| Backspace.PreviousSpanUnwrapped | app/page.tsx:311-323 | a previous span becomes a text node of its text; the text is unchanged and the caret sits at its end |
| Backspace.PreviousTextOutcome | app/page.tsx:289-306 | the outcome when the previous sibling is text |
| Backspace.PreviousBreakOutcome | app/page.tsx:309-310 | the outcome when the previous sibling is a BR |
| Backspace.PreviousSpanOutcome | app/page.tsx:311-323 | the outcome when the previous sibling is a span |
| Backspace.SiblingLeftAlone | app/page.tsx:287-326 | with no previous sibling, or one that is neither BR nor SPAN, the key is cancelled and nothing changes |
| Backspace.BackspaceCaretValid | app/page.tsx:266-323 | whenever the key is cancelled, the selection left is a caret at a valid boundary of the new document |
| Backspace.SpanBoundaryCaretValid | app/page.tsx:266-285 | the same for the span branch |
| Backspace.MergeSpansCaretValid | app/page.tsx:266-274 | the same for a merge, including the throwing case |
| Backspace.UnwrapCaretValid | app/page.tsx:280-285 | the same for an unwrap |
| Backspace.SiblingBoundaryCaretValid | app/page.tsx:301-323 | the same for the sibling branch |
| Backspace.BackspaceKeepsWellFormed | app/page.tsx:255-326 | on a well-formed document the handler creates no element other than a BR or an ansi span |
| Backspace.SpanBoundaryWellFormed | app/page.tsx:255-286 | the same for the span branch |
| Backspace.SiblingBoundaryWellFormed | app/page.tsx:287-326 | the same for the sibling branch |
| Backspace.MergeListText | app/page.tsx:261-264 | the list and text after replacing child j and removing child k |
| Styling.ApplyStyle | app/page.tsx:65-91 | with no range, or an empty selected text, nothing changes |
| Styling.RangeInChildren | app/page.tsx:71-72 | a range in an element lies within its child list |
| Styling.SplitText | app/page.tsx:80-81 | splitting a text node around the new span keeps the list's text |
| Styling.ReplaceRange | app/page.tsx:80-81 | replacing children a to b by a span holding their text keeps the list's text |
| Styling.ApplyStyleKeepsText | app/page.tsx:65-91 | styling never changes the document's text |
| Styling.ApplyStyleSelectsSpan | app/page.tsx:83-86 | afterwards the selection runs over exactly the new span's contents, and that span has class `ansi-<code>` and holds the selected text |
| Styling.ApplyStyleKeepsWellFormed | app/page.tsx:76-81 | with a numeric code, styling a well-formed document keeps it well-formed |
| Styling.RestyleNests | app/page.tsx:83-86 | pressing a second style button right after the first nests the second span inside the first |
| Styling.StyleSpanEncoding | app/page.tsx:355-376 | a span made by a style button exports as its opening sequence, the text, the reset and the enclosing restoration; at the bottom with a colour code, as `ESC[2;c m`, the text and `ESC[0m` |
| Styling.ResetAll | app/page.tsx:93-98 | afterwards the region holds at most one node, a text node, and is empty exactly when its text was empty; a range becomes a caret at the start of the region, and no range stays no range |
| Styling.ResetAllKeepsText | app/page.tsx:95-96 | resetting keeps the text |
| Styling.ResetAllIdempotent | app/page.tsx:93-98 | resetting twice is resetting once |
| Styling.ResetAllExport | app/page.tsx:93-98 | a reset region is already clean, and it exports as its text between the fences with no escape sequence |
| Editor.Editor.constructor | app/page.tsx:56-58 | the page starts with the initial content and no selection |
| Editor.Editor.HandleInput | app/page.tsx:100-124 | with no range nothing changes; otherwise the region is parsed, cleaned and written back when the markup changed, which keeps the text, leaves the region well-formed and rewrites it exactly when it was not; when the region is not empty the caret is where `restoreCursorPosition` puts it for the given offset, at a valid boundary; when a rewrite empties the region the caret is at its start, because writing the markup back moves a range inside a removed child there |
| Editor.Editor.HandleBackspace | app/page.tsx:232-329 | the key is prevented exactly when the handler's outcome is not the default; the state becomes the outcome; the caret is valid; well-formedness is kept |
| Editor.Editor.ApplyStyle | app/page.tsx:65-91 | the state becomes the styled document and selection, and the text is kept |
| Editor.Editor.ResetAll | app/page.tsx:93-98 | the state becomes the reset document and selection, and the text is kept |
| Editor.Editor.CopyToClipboard | app/page.tsx:381-389 | the text handed to the clipboard is the export of the region |
| Editor.StyledKept | app/page.tsx:57 | a span with class `ansi-<digits>` is one the cleaner keeps |
| Editor.StyledWellFormed | app/page.tsx:57 | such a span around well-formed children is well-formed |
| Editor.ColourSpanWellFormed | app/page.tsx:57 | such a span around one text node is well-formed |
| Editor.SeedIsClean | app/page.tsx:57 | the initial content is well-formed, so the first input event does not rewrite it |
| Editor.SeedSpanWellFormed | app/page.tsx:57 | each single-colour span of the initial content is well-formed |
| Editor.SeedColouredLetters | app/page.tsx:57 | each letter of "Colored" exports as `ESC[2;3x m`, the letter and `ESC[0m` |
| Editor.SeedNestedBackground | app/page.tsx:57 | "Discord", white inside blurple, exports as background, colour, text, reset, background restored, reset |

## Left out

- HTML markup strings are not modelled character by character. A markup
  string is modelled by the tree it parses to (`Markup.ReparseAll`), so two
  strings are taken to be equal exactly when those trees are equal. Attributes
  other than the class, entity escaping and the parser's error recovery are
  not modelled.
- After a state update React renders the region again from `htmlContent`
  (`dangerouslySetInnerHTML`, app/page.tsx:517). That re-render is not
  modelled, and neither is what it does to the selection. The model keeps the
  document and selection as each handler leaves them.
- Offsets count characters (Unicode scalar values) here. JavaScript string
  lengths and DOM offsets count UTF-16 code units (app/page.tsx:131, 152, 156,
  172, 270, 282, 303). So an emoji outside the Basic Multilingual Plane counts
  1 in the model and 2 in the page, for `position`, node lengths and caret
  offsets alike.
- Comment nodes and other non-text, non-element nodes are not modelled.
  `textContent` covers text nodes only.
- `getCursorPosition` (app/page.tsx:127-132) is not modelled. The offset it
  measures is a parameter of `Editor.Editor.HandleInput`.
- The Enter key (app/page.tsx:229-231) is left out, because `execCommand("insertLineBreak")`
  is browser editing code.
- The browser's own deletion, which runs when the Backspace handler does not
  cancel the key, is not modelled. That outcome is `Default`.
- Backspace.Backspace: a missing range is modelled as `Default`, but the code
  would throw at `getRangeAt(0)`. The function requires the caret's container to
  be a node of the region, because key events come from the focused region.
- Styling.ApplyStyle: it requires the range to start and end in the same node.
  A range across several nodes (`deleteContents` over a partial tree) is not
  modelled. `Editor.Editor.ApplyStyle` carries the same requirement.
- Styling.ApplyStyle: `selection.toString()` is modelled as the range's text.
  Browser differences in that string are not modelled.
- Selections that lie outside the editable region are not modelled.
- `parseInt` is exact here. JavaScript loses precision beyond 2^53, and class
  numbers that long are not modelled.
- `clipboard.copy` is not modelled: its asynchronous write, its failure and
  the hook in `app/hooks/use-clipboard.ts`. The copy button's counter,
  messages, timer and React state (app/page.tsx:390-400) are left out too, as
  UI state that never affects the document.
- React's `htmlContent` state is left out. It only mirrors the region's markup.
- The page's JSX, the tooltips and the button layout are left out.
