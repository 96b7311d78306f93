/**
 * The exporter: a depth-first walk that turns the document into text with
 * ECMA-48 "Select Graphic Rendition" escape sequences (ESC [ p ; p m), the
 * form the chat client renders inside an `ansi` code block.
 *
 * `EncodeNodes` says what the walk produces; `NodesToAnsi` is the walk
 * itself, a loop over sibling nodes, and is proved to produce exactly
 * `EncodeNodes`. The page pushes onto and pops one shared stack of style
 * entries; here the stack is passed by value into each recursive call and
 * handed back, and it is proved to come back as it was given.
 */
module Encoder {
  import opened Dom
  import opened AnsiClass

  /** One entry of the `states` stack: foreground, background and style (weight/underline) codes. */
  datatype Style = Style(fg: nat, bg: nat, st: nat)

  /** The number 2 stands for "not set"; the walk starts from a stack holding one all-unset entry. */
  const Unset: nat := 2
  const Sentinel: Style := Style(Unset, Unset, Unset)

  const ESC: char := 27 as char

  /** `ESC[a;bm` */
  function Sgr(a: nat, b: nat): string
  {
    [ESC] + "[" + Decimal(a) + ";" + Decimal(b) + "m"
  }

  /** `ESC[0m`, which switches every attribute off. */
  const Reset: string := [ESC, '[', '0', 'm']

  /** The entry pushed for a span with code `code`: a copy of `top` with one field overridden. */
  function Enter(top: Style, code: nat): Style
  {
    if code < 30 then top.(st := code)
    else if code < 40 then top.(fg := code)
    else top.(bg := code)
  }

  /** The sequences that re-establish the enclosing entry after a span closes. */
  function Restore(s: Style): string
  {
    (if s.fg != Unset then Sgr(s.st, s.fg) else "") + (if s.bg != Unset then Sgr(s.st, s.bg) else "")
  }

  /** The text the walk emits for one node when `top` is the top of the stack. */
  function EncodeNode(n: Node, top: Style): string
  {
    match n
    case Text(d) => d
    case Element(tag, cls, ch) =>
      if tag == BR then "\n"
      else
        match AnsiCode(cls)
        case None => ""
        case Some(c) =>
          var s := Enter(top, c);
          Sgr(s.st, if c >= 40 then s.bg else s.fg) + EncodeNodes(ch, s) + Reset + Restore(top)
  }

  function EncodeNodes(ns: seq<Node>, top: Style): string
  {
    if ns == [] then "" else EncodeNode(ns[0], top) + EncodeNodes(ns[1..], top)
  }

  /** The message put on the clipboard: the encoding of the editable region in an `ansi` code block. */
  function Export(root: seq<Node>): (r: string)
    ensures |r| == |EncodeNodes(root, Sentinel)| + 12
    ensures r[..8] == "```ansi\n" && r[|r| - 4..] == "\n```"
    ensures r[8..|r| - 4] == EncodeNodes(root, Sentinel)
  {
    "```ansi\n" + EncodeNodes(root, Sentinel) + "\n```"
  }

  /**
   * The walk as the page runs it: a loop over the sibling nodes, appending to
   * `text`, with the stack passed in and handed back (it is pushed before a
   * span's children are visited and popped after), so that the caller finds
   * it as it was.
   */
  method NodesToAnsi(nodes: seq<Node>, states: seq<Style>) returns (text: string, after: seq<Style>)
    requires |states| > 0
    ensures after == states
    ensures text == EncodeNodes(nodes, states[|states| - 1])
    decreases nodes
  {
    ghost var top := states[|states| - 1];
    text := "";
    after := states;
    var i := 0;
    while i < |nodes|
      invariant i <= |nodes|
      invariant after == states
      invariant text + EncodeNodes(nodes[i..], top) == EncodeNodes(nodes, top)
    {
      assert nodes[i..][1..] == nodes[i + 1..];
      ghost var before := text;
      var node := nodes[i];
      if node.Text? {
        text := text + node.data;
      } else if node.tag == BR {
        text := text + "\n";
      } else {
        var found := AnsiCode(node.className);
        if found.Some? {
          var code := found.value;
          var newState := after[|after| - 1];
          if code < 30 { newState := newState.(st := code); }
          if 30 <= code < 40 { newState := newState.(fg := code); }
          if code >= 40 { newState := newState.(bg := code); }
          assert newState == Enter(top, code);
          after := after + [newState];
          var open := Sgr(newState.st, if code >= 40 then newState.bg else newState.fg);
          text := text + open;
          var inner;
          inner, after := NodesToAnsi(node.children, after);
          text := text + inner;
          after := after[..|after| - 1];
          assert after == states;
          text := text + Reset;
          ghost var closed := text;
          Assoc(before, open, inner);
          Assoc(before, open + inner, Reset);
          var enclosing := after[|after| - 1];
          assert enclosing == top;
          ghost var f := if top.fg != Unset then Sgr(top.st, top.fg) else "";
          ghost var g := if top.bg != Unset then Sgr(top.st, top.bg) else "";
          if enclosing.fg != Unset { text := text + Sgr(enclosing.st, enclosing.fg); }
          assert text == closed + f;
          if enclosing.bg != Unset { text := text + Sgr(enclosing.st, enclosing.bg); }
          assert text == closed + f + g;
          Assoc(closed, f, g);
          assert Restore(top) == f + g;
          Assoc(before, open + inner + Reset, Restore(top));
          assert EncodeNode(node, top) == open + inner + Reset + Restore(top);
        }
      }
      assert text == before + EncodeNode(node, top);
      assert EncodeNodes(nodes[i..], top) == EncodeNode(node, top) + EncodeNodes(nodes[i + 1..], top);
      Assoc(before, EncodeNode(node, top), EncodeNodes(nodes[i + 1..], top));
      i := i + 1;
    }
  }

  lemma Assoc(a: string, b: string, c: string)
    ensures (a + b) + c == a + (b + c)
  {
  }

  // ---------------------------------------------------------------------------
  // What the walk emits, case by case

  /**
   * A span with a colour code opens with `ESC[st;code m`, where st is the
   * inherited style; a span with a style code (below 30) opens with
   * `ESC[code;fg m`, where fg is the inherited foreground. Inside, exactly one
   * field of the entry differs from the enclosing one. After the children
   * comes `ESC[0m` and then the enclosing entry's restoration.
   */
  lemma SpanEncoding(tag: string, cls: string, ch: seq<Node>, top: Style, c: nat)
    requires tag != BR && AnsiCode(cls) == Some(c)
    ensures var s := Enter(top, c);
      && (c < 30 ==> s.st == c && s.fg == top.fg && s.bg == top.bg)
      && (30 <= c < 40 ==> s.fg == c && s.st == top.st && s.bg == top.bg)
      && (c >= 40 ==> s.bg == c && s.st == top.st && s.fg == top.fg)
      && EncodeNode(Element(tag, cls, ch), top)
         == (if c < 30 then Sgr(c, top.fg) else Sgr(top.st, c)) + EncodeNodes(ch, s) + Reset + Restore(top)
  {
  }

  /**
   * Restoration emits `ESC[st;fg m` exactly when the foreground is set and
   * `ESC[st;bg m` exactly when the background is set, both with the enclosing
   * style; at the bottom of the stack nothing is emitted.
   */
  lemma RestoreCases(s: Style)
    ensures Restore(Sentinel) == ""
    ensures s.fg == Unset && s.bg == Unset ==> Restore(s) == ""
    ensures s.fg != Unset && s.bg == Unset ==> Restore(s) == Sgr(s.st, s.fg)
    ensures s.fg == Unset && s.bg != Unset ==> Restore(s) == Sgr(s.st, s.bg)
    ensures s.fg != Unset && s.bg != Unset ==> Restore(s) == Sgr(s.st, s.fg) + Sgr(s.st, s.bg)
  {
  }

  /** Text is copied verbatim, a line break becomes a newline, and any other element without an ansi class emits nothing, children included. */
  lemma LeafEncoding(n: Node, top: Style)
    ensures n.Text? ==> EncodeNode(n, top) == n.data
    ensures n.Element? && n.tag == BR ==> EncodeNode(n, top) == "\n"
    ensures n.Element? && n.tag != BR && !HasAnsiClass(n.className) ==> EncodeNode(n, top) == ""
  {
  }

  lemma {:induction false} EncodeNodesAppend(a: seq<Node>, b: seq<Node>, top: Style)
    ensures EncodeNodes(a + b, top) == EncodeNodes(a, top) + EncodeNodes(b, top)
  {
    if a != [] {
      assert (a + b)[1..] == a[1..] + b;
      EncodeNodesAppend(a[1..], b, top);
    } else {
      assert a + b == b;
    }
  }

  /**
   * One letter in a colour span at the bottom of the stack: `ESC[2;c m`, the
   * letter, `ESC[0m`, and no restoration.
   */
  lemma ColouredLetter(letter: char, c: nat)
    requires 30 <= c < 40
    ensures EncodeNode(Element(SPAN, "ansi-" + Decimal(c), [Text([letter])]), Sentinel)
         == Sgr(Unset, c) + [letter] + Reset
  {
    ClassOfNumber(c);
    assert EncodeNodes([Text([letter])], Style(c, Unset, Unset)) == [letter];
  }

  /**
   * A style span nested in a colour span, as applying a colour to a run and
   * then a style to part of it produces: the colour opens, the style opens
   * with the colour as its second parameter, the style closes with a reset,
   * the colour is restored for the rest of the run, and the colour closes.
   */
  lemma NestedStyleInColour(x: string, y: string, z: string, a: nat, b: nat)
    requires 30 <= a < 40 && b < 30
    ensures
      var inner := Element(SPAN, "ansi-" + Decimal(b), [Text(y)]);
      var outer := Element(SPAN, "ansi-" + Decimal(a), [Text(x), inner, Text(z)]);
      EncodeNode(outer, Sentinel)
        == Sgr(Unset, a) + x + Sgr(b, a) + y + Reset + Sgr(Unset, a) + z + Reset
  {
    ClassOfNumber(a);
    var sa := Style(a, Unset, Unset);
    var inner := Element(SPAN, "ansi-" + Decimal(b), [Text(y)]);
    var outer := Element(SPAN, "ansi-" + Decimal(a), [Text(x), inner, Text(z)]);
    var kids := [Text(x), inner, Text(z)];
    var i := Sgr(b, a) + y + Reset + Sgr(Unset, a);
    StyleInColour(y, a, b);
    assert kids[1..][1..] == [Text(z)];
    assert EncodeNodes([Text(z)], sa) == z;
    assert EncodeNodes(kids[1..], sa) == i + z;
    assert EncodeNodes(kids, sa) == x + (i + z);
    assert Restore(Sentinel) == "";
    assert EncodeNode(outer, Sentinel) == Sgr(Unset, a) + (x + (i + z)) + Reset;
    Regroup(Sgr(Unset, a), x, Sgr(b, a), y, Reset, z);
  }

  /**
   * A colour span inside a background span: the background opens, the
   * colour opens with the inherited style, the colour closes with a reset and
   * the background is restored, then the background closes.
   */
  lemma ColourInBackground(y: string, f: nat, b: nat)
    requires 30 <= f < 40 && 40 <= b
    ensures
      var inner := Element(SPAN, "ansi-" + Decimal(f), [Text(y)]);
      EncodeNode(Element(SPAN, "ansi-" + Decimal(b), [inner]), Sentinel)
        == Sgr(Unset, b) + Sgr(Unset, f) + y + Reset + Sgr(Unset, b) + Reset
  {
    var inner := Element(SPAN, "ansi-" + Decimal(f), [Text(y)]);
    var sb := Style(Unset, b, Unset);
    ClassOfNumber(b);
    SpanEncoding(SPAN, "ansi-" + Decimal(b), [inner], Sentinel, b);
    assert Enter(Sentinel, b) == sb;
    ColourUnderBackground(y, f, b);
    assert EncodeNodes([inner], sb) == EncodeNode(inner, sb);
    RestoreCases(sb);
    Regroup4(Sgr(Unset, b), Sgr(Unset, f), y, Reset);
  }

  lemma Regroup4(o: string, p: string, y: string, r: string)
    ensures o + (p + y + r + o) + r + "" == o + p + y + r + o + r
  {
  }

  /** The inner half: a colour span inside a background entry opens with the inherited style and restores the background when it closes. */
  lemma ColourUnderBackground(y: string, f: nat, b: nat)
    requires 30 <= f < 40 && 40 <= b
    ensures EncodeNode(Element(SPAN, "ansi-" + Decimal(f), [Text(y)]), Style(Unset, b, Unset))
         == Sgr(Unset, f) + y + Reset + Sgr(Unset, b)
  {
    ClassOfNumber(f);
    assert EncodeNodes([Text(y)], Style(f, b, Unset)) == y;
    assert Restore(Style(Unset, b, Unset)) == Sgr(Unset, b);
  }

  lemma Regroup(o: string, x: string, p: string, y: string, r: string, z: string)
    ensures o + (x + ((p + y + r + o) + z)) + r == o + x + p + y + r + o + z + r
  {
  }

  /** The inner half: a style span inside a colour entry opens with both, and restores the colour when it closes. */
  lemma StyleInColour(y: string, a: nat, b: nat)
    requires 30 <= a < 40 && b < 30
    ensures EncodeNode(Element(SPAN, "ansi-" + Decimal(b), [Text(y)]), Style(a, Unset, Unset))
         == Sgr(b, a) + y + Reset + Sgr(Unset, a)
  {
    ClassOfNumber(b);
    assert EncodeNodes([Text(y)], Style(a, Unset, b)) == y;
    assert Restore(Style(a, Unset, Unset)) == Sgr(Unset, a);
  }

  // ---------------------------------------------------------------------------
  // The encoding shows exactly the document's text

  /** The position of the first 'm' at or after i (|s| if there is none): where an escape sequence ends. */
  function IndexOfM(s: string, i: nat): (k: nat)
    requires i <= |s|
    ensures i <= k <= |s|
    ensures k < |s| ==> s[k] == 'm'
    ensures forall j :: i <= j < k ==> s[j] != 'm'
    decreases |s| - i
  {
    if i == |s| || s[i] == 'm' then i else IndexOfM(s, i + 1)
  }

  /**
   * What a reader sees of an encoded string: every escape sequence, from ESC
   * through the next 'm', is consumed by the renderer and the rest is shown.
   */
  function Visible(s: string): string
    decreases |s|
  {
    if s == [] then ""
    else if s[0] != ESC then [s[0]] + Visible(s[1..])
    else
      var k := IndexOfM(s, 1);
      if k < |s| then Visible(s[k + 1..]) else ""
  }

  /** The text the editor displays: text nodes, and a newline for each line break. */
  function Rendered(n: Node): string
  {
    match n
    case Text(d) => d
    case Element(tag, _, ch) => if tag == BR then "\n" else RenderedOf(ch)
  }

  function RenderedOf(ns: seq<Node>): string
  {
    if ns == [] then "" else Rendered(ns[0]) + RenderedOf(ns[1..])
  }

  /** Every element is a line break or carries an ansi class, and no text holds an ESC character. */
  predicate Encodable(n: Node)
  {
    match n
    case Text(d) => ESC !in d
    case Element(tag, cls, ch) => tag == BR || (HasAnsiClass(cls) && EncodableAll(ch))
  }

  predicate EncodableAll(ns: seq<Node>)
  {
    ns == [] || (Encodable(ns[0]) && EncodableAll(ns[1..]))
  }

  lemma VisibleSgr(a: nat, b: nat, rest: string)
    ensures Visible(Sgr(a, b) + rest) == Visible(rest)
  {
    var e := Sgr(a, b);
    var s := e + rest;
    var m := |e| - 1;
    assert s[m] == 'm';
    forall j | 1 <= j < m ensures s[j] != 'm' {
      var da, db := Decimal(a), Decimal(b);
      assert e == [ESC, '['] + da + [';'] + db + ['m'];
      if j < 2 + |da| {
        assert s[j] == '[' || IsDigit(s[j]);
      } else if j == 2 + |da| {
        assert s[j] == ';';
      } else {
        assert s[j] == db[j - 3 - |da|];
      }
    }
    assert IndexOfM(s, 1) == m;
    assert s[m + 1..] == rest;
  }

  lemma VisibleReset(rest: string)
    ensures Visible(Reset + rest) == Visible(rest)
  {
    var s := Reset + rest;
    assert s[1] != 'm' && s[2] != 'm' && s[3] == 'm';
    assert IndexOfM(s, 1) == 3;
    assert s[4..] == rest;
  }

  lemma VisibleRestore(top: Style, rest: string)
    ensures Visible(Restore(top) + rest) == Visible(rest)
  {
    var f := if top.fg != Unset then Sgr(top.st, top.fg) else "";
    var g := if top.bg != Unset then Sgr(top.st, top.bg) else "";
    assert Restore(top) + rest == f + (g + rest);
    calc {
      Visible(g + rest);
      { if top.bg != Unset { VisibleSgr(top.st, top.bg, rest); } else { assert g + rest == rest; } }
      Visible(rest);
    }
    if top.fg != Unset {
      VisibleSgr(top.st, top.fg, g + rest);
    } else {
      assert f + (g + rest) == g + rest;
    }
  }

  lemma {:induction false} VisiblePlain(t: string, rest: string)
    requires ESC !in t
    ensures Visible(t + rest) == t + Visible(rest)
  {
    if t != [] {
      assert (t + rest)[1..] == t[1..] + rest;
      VisiblePlain(t[1..], rest);
    } else {
      assert t + rest == rest;
    }
  }

  /**
   * For a document whose every element is a line break or an ansi span, the
   * reader sees exactly the editor's text: the encoder neither drops nor adds
   * a visible character.
   */
  lemma {:induction false} VisibleEncodeNode(n: Node, top: Style, rest: string)
    requires Encodable(n)
    ensures Visible(EncodeNode(n, top) + rest) == Rendered(n) + Visible(rest)
    decreases n, 0
  {
    match n
    case Text(d) =>
      VisiblePlain(d, rest);
    case Element(tag, cls, ch) =>
      if tag == BR {
        assert ("\n" + rest)[1..] == rest;
      } else {
        var c := AnsiCode(cls).value;
        var s := Enter(top, c);
        var open := Sgr(s.st, if c >= 40 then s.bg else s.fg);
        var body := EncodeNodes(ch, s);
        var after := Restore(top) + rest;
        assert EncodeNode(n, top) == open + body + Reset + Restore(top);
        Assoc(open + body + Reset, Restore(top), rest);
        Assoc(open + body, Reset, after);
        Assoc(open, body, Reset + after);
        assert EncodeNode(n, top) + rest == open + (body + (Reset + after));
        VisibleSgr(s.st, if c >= 40 then s.bg else s.fg, body + (Reset + after));
        VisibleEncodeNodes(ch, s, Reset + after);
        VisibleReset(after);
        VisibleRestore(top, rest);
        assert Rendered(n) == RenderedOf(ch);
      }
  }

  lemma {:induction false} VisibleEncodeNodes(ns: seq<Node>, top: Style, rest: string)
    requires EncodableAll(ns)
    ensures Visible(EncodeNodes(ns, top) + rest) == RenderedOf(ns) + Visible(rest)
    decreases ns, 1
  {
    if ns != [] {
      var tail := EncodeNodes(ns[1..], top) + rest;
      assert EncodeNodes(ns, top) == EncodeNode(ns[0], top) + EncodeNodes(ns[1..], top);
      Assoc(EncodeNode(ns[0], top), EncodeNodes(ns[1..], top), rest);
      VisibleEncodeNode(ns[0], top, tail);
      VisibleEncodeNodes(ns[1..], top, rest);
      assert RenderedOf(ns) == Rendered(ns[0]) + RenderedOf(ns[1..]);
      Assoc(Rendered(ns[0]), RenderedOf(ns[1..]), Visible(rest));
    } else {
      assert EncodeNodes(ns, top) + rest == rest;
      assert RenderedOf(ns) + Visible(rest) == Visible(rest);
    }
  }

  /** The exported body shows what the editor shows. */
  lemma VisibleEncoding(ns: seq<Node>)
    requires EncodableAll(ns)
    ensures Visible(EncodeNodes(ns, Sentinel)) == RenderedOf(ns)
  {
    VisibleEncodeNodes(ns, Sentinel, "");
    assert EncodeNodes(ns, Sentinel) + "" == EncodeNodes(ns, Sentinel);
  }
}
