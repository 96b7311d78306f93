/**
 * Markup round trips: what the HTML parser builds when a tree is serialised
 * with `innerHTML` and the string is parsed back.
 *
 * Serialising writes each text node's data and each element's tags; parsing
 * the result gives back the same elements, but a run of adjacent text nodes
 * comes back as one text node and an empty text node does not come back at
 * all. `ReparseAll` is that round trip. Two trees serialise to the same
 * string exactly when their round trips agree, which is how the input
 * handler's comparison of two markup strings is modelled.
 *
 * `AfterInput` is the input handler's rewrite as a whole: parse the current
 * markup into a scratch element, clean it, serialise it, and write it back
 * only when the string differs.
 */
module Markup {
  import opened Dom
  import Sanitizer

  /** Puts a parsed node in front of a parsed list: an empty text is dropped, a text before a text joins it. */
  function Attach(n: Node, rest: seq<Node>): seq<Node>
  {
    match n
    case Text(d) =>
      if d == "" then rest
      else if rest != [] && rest[0].Text? then [Text(d + rest[0].data)] + rest[1..]
      else [n] + rest
    case Element(_, _, _) => [n] + rest
  }

  function Reparse(n: Node): Node
  {
    match n
    case Text(_) => n
    case Element(tag, cls, ch) => Element(tag, cls, ReparseAll(ch))
  }

  /** `div.innerHTML = serialise(ns)`: the children the parser builds. */
  function ReparseAll(ns: seq<Node>): seq<Node>
  {
    if ns == [] then [] else Attach(Reparse(ns[0]), ReparseAll(ns[1..]))
  }

  /** The shape the parser builds: no empty text node, no two adjacent text nodes, at any depth. */
  predicate ParsedNode(n: Node)
  {
    match n
    case Text(d) => d != ""
    case Element(_, _, ch) => Parsed(ch)
  }

  predicate Parsed(ns: seq<Node>)
  {
    (forall i :: 0 <= i < |ns| ==> ParsedNode(ns[i]))
    && (forall i :: 0 < i < |ns| ==> !(ns[i - 1].Text? && ns[i].Text?))
  }

  /**
   * `handleInput`'s rewrite: the current markup is parsed into a scratch
   * element and cleaned there; the cleaned markup replaces the region only
   * when it differs, as a string, from the current markup.
   */
  function AfterInput(root: seq<Node>): seq<Node>
  {
    var parsed := ReparseAll(root);
    var cleanHTML := ReparseAll(Sanitizer.CleanAll(parsed));
    if cleanHTML != parsed then cleanHTML else root
  }

  // ---------------------------------------------------------------------------
  // The round trip keeps the text

  lemma AttachText(n: Node, rest: seq<Node>)
    ensures TextContentOf(Attach(n, rest)) == TextContent(n) + TextContentOf(rest)
  {
    match n
    case Text(d) =>
      if d == "" {
      } else if rest != [] && rest[0].Text? {
        var e := rest[0].data;
        var l := [Text(d + e)] + rest[1..];
        assert l[0] == Text(d + e) && l[1..] == rest[1..];
        assert TextContentOf(l) == (d + e) + TextContentOf(rest[1..]);
        assert TextContentOf(rest) == e + TextContentOf(rest[1..]);
      } else {
        assert ([n] + rest)[1..] == rest;
      }
    case Element(_, _, _) =>
      assert ([n] + rest)[1..] == rest;
  }

  lemma {:induction false} ReparseKeepsText(n: Node)
    ensures TextContent(Reparse(n)) == TextContent(n)
    decreases n, 1
  {
    match n
    case Text(_) =>
    case Element(_, _, ch) =>
      ReparseAllKeepsText(ch);
  }

  /** Writing markup back never changes the text. */
  lemma {:induction false} ReparseAllKeepsText(ns: seq<Node>)
    ensures TextContentOf(ReparseAll(ns)) == TextContentOf(ns)
    decreases ns, 0
  {
    if ns != [] {
      ReparseKeepsText(ns[0]);
      ReparseAllKeepsText(ns[1..]);
      AttachText(Reparse(ns[0]), ReparseAll(ns[1..]));
    }
  }

  // ---------------------------------------------------------------------------
  // The round trip builds the parser's shape, and leaves that shape alone

  lemma AttachParsed(n: Node, rest: seq<Node>)
    requires n.Element? ==> ParsedNode(n)
    requires Parsed(rest)
    ensures Parsed(Attach(n, rest))
  {
    var l := Attach(n, rest);
    if n.Text? && n.data != "" && rest != [] && rest[0].Text? {
      assert forall i :: 1 <= i < |l| ==> l[i] == rest[i];
      assert ParsedNode(l[0]);
    } else if !(n.Text? && n.data == "") {
      assert l == [n] + rest;
      assert forall i :: 1 <= i < |l| ==> l[i] == rest[i - 1];
    }
  }

  lemma {:induction false} ReparseIsParsed(n: Node)
    ensures n.Element? ==> ParsedNode(Reparse(n))
    decreases n, 1
  {
    match n
    case Text(_) =>
    case Element(_, _, ch) =>
      ReparseAllIsParsed(ch);
  }

  /** What the parser builds has no empty and no adjacent text nodes. */
  lemma {:induction false} ReparseAllIsParsed(ns: seq<Node>)
    ensures Parsed(ReparseAll(ns))
    decreases ns, 0
  {
    if ns != [] {
      ReparseIsParsed(ns[0]);
      ReparseAllIsParsed(ns[1..]);
      AttachParsed(Reparse(ns[0]), ReparseAll(ns[1..]));
    }
  }

  lemma ParsedTail(ns: seq<Node>)
    requires Parsed(ns) && ns != []
    ensures Parsed(ns[1..]) && ParsedNode(ns[0])
    ensures |ns| > 1 && ns[0].Text? ==> !ns[1].Text?
  {
    var t := ns[1..];
    assert forall i :: 0 <= i < |t| ==> t[i] == ns[i + 1];
    assert forall i :: 0 < i < |t| ==> t[i - 1] == ns[i] && t[i] == ns[i + 1];
  }

  lemma {:induction false} ReparseFixesParsed(n: Node)
    requires ParsedNode(n)
    ensures Reparse(n) == n
    decreases n, 1
  {
    match n
    case Text(_) =>
    case Element(_, _, ch) =>
      ReparseAllFixesParsed(ch);
  }

  /** A tree already in the parser's shape comes back unchanged. */
  lemma {:induction false} ReparseAllFixesParsed(ns: seq<Node>)
    requires Parsed(ns)
    ensures ReparseAll(ns) == ns
    decreases ns, 0
  {
    if ns != [] {
      ParsedTail(ns);
      ReparseFixesParsed(ns[0]);
      ReparseAllFixesParsed(ns[1..]);
      assert [ns[0]] + ns[1..] == ns;
    }
  }

  /** The round trip changes a tree exactly when the tree is not in the parser's shape; doing it twice is doing it once. */
  lemma ReparseUnchangedIff(ns: seq<Node>)
    ensures ReparseAll(ns) == ns <==> Parsed(ns)
    ensures ReparseAll(ReparseAll(ns)) == ReparseAll(ns)
  {
    ReparseAllIsParsed(ns);
    ReparseAllFixesParsed(ReparseAll(ns));
    if Parsed(ns) {
      ReparseAllFixesParsed(ns);
    }
  }

  // ---------------------------------------------------------------------------
  // The round trip keeps every element, and so the cleaner's shape

  /** The number of elements in a tree. */
  function Elements(n: Node): nat
  {
    match n
    case Text(_) => 0
    case Element(_, _, ch) => 1 + ElementsOf(ch)
  }

  function ElementsOf(ns: seq<Node>): nat
  {
    if ns == [] then 0 else Elements(ns[0]) + ElementsOf(ns[1..])
  }

  lemma AttachElements(n: Node, rest: seq<Node>)
    ensures ElementsOf(Attach(n, rest)) == Elements(n) + ElementsOf(rest)
  {
    match n
    case Text(d) =>
      if d != "" && rest != [] && rest[0].Text? {
        var l := [Text(d + rest[0].data)] + rest[1..];
        assert l[1..] == rest[1..];
      } else if d != "" {
        assert ([n] + rest)[1..] == rest;
      }
    case Element(_, _, _) =>
      assert ([n] + rest)[1..] == rest;
  }

  lemma {:induction false} ReparseKeepsElements(n: Node)
    ensures Elements(Reparse(n)) == Elements(n)
    decreases n, 1
  {
    match n
    case Text(_) =>
    case Element(_, _, ch) =>
      ReparseAllKeepsElements(ch);
  }

  lemma {:induction false} ReparseAllKeepsElements(ns: seq<Node>)
    ensures ElementsOf(ReparseAll(ns)) == ElementsOf(ns)
    decreases ns, 0
  {
    if ns != [] {
      ReparseKeepsElements(ns[0]);
      ReparseAllKeepsElements(ns[1..]);
      AttachElements(Reparse(ns[0]), ReparseAll(ns[1..]));
    }
  }

  lemma WellFormedCons(ns: seq<Node>)
    requires ns != []
    ensures Sanitizer.AllWellFormed(ns) <==> Sanitizer.WellFormed(ns[0]) && Sanitizer.AllWellFormed(ns[1..])
  {
    assert forall i :: 1 <= i < |ns| ==> ns[1..][i - 1] == ns[i];
  }

  lemma AttachWellFormed(n: Node, rest: seq<Node>)
    ensures Sanitizer.AllWellFormed(Attach(n, rest)) <==> Sanitizer.WellFormed(n) && Sanitizer.AllWellFormed(rest)
  {
    var l := Attach(n, rest);
    if n.Text? && n.data != "" && rest != [] && rest[0].Text? {
      WellFormedCons(l);
      WellFormedCons(rest);
      assert l[1..] == rest[1..];
    } else if !(n.Text? && n.data == "") {
      assert l == [n] + rest;
      WellFormedCons(l);
      assert l[1..] == rest;
    }
  }

  lemma {:induction false} ReparseWellFormed(n: Node)
    ensures Sanitizer.WellFormed(Reparse(n)) <==> Sanitizer.WellFormed(n)
    decreases n, 1
  {
    match n
    case Text(_) =>
    case Element(_, _, ch) =>
      ReparseAllWellFormed(ch);
  }

  /** A tree is in the cleaner's shape exactly when its round trip is. */
  lemma {:induction false} ReparseAllWellFormed(ns: seq<Node>)
    ensures Sanitizer.AllWellFormed(ReparseAll(ns)) <==> Sanitizer.AllWellFormed(ns)
    decreases ns, 0
  {
    if ns != [] {
      ReparseWellFormed(ns[0]);
      ReparseAllWellFormed(ns[1..]);
      AttachWellFormed(Reparse(ns[0]), ReparseAll(ns[1..]));
      WellFormedCons(ns);
    }
  }

  lemma {:induction false} CleanRemovesElements(n: Node)
    ensures Elements(Sanitizer.Clean(n)) <= Elements(n)
    ensures !Sanitizer.WellFormed(n) ==> Elements(Sanitizer.Clean(n)) < Elements(n)
    decreases n, 1
  {
    match n
    case Text(_) =>
    case Element(tag, cls, ch) =>
      CleanAllRemovesElements(ch);
  }

  /** Cleaning never adds an element, and removes at least one from a tree not in its shape. */
  lemma {:induction false} CleanAllRemovesElements(ns: seq<Node>)
    ensures ElementsOf(Sanitizer.CleanAll(ns)) <= ElementsOf(ns)
    ensures !Sanitizer.AllWellFormed(ns) ==> ElementsOf(Sanitizer.CleanAll(ns)) < ElementsOf(ns)
    decreases ns, 0
  {
    if ns != [] {
      var c := Sanitizer.CleanAll(ns);
      CleanRemovesElements(ns[0]);
      CleanAllRemovesElements(ns[1..]);
      assert c[1..] == Sanitizer.CleanAll(ns[1..]);
      WellFormedCons(ns);
    }
  }

  // ---------------------------------------------------------------------------
  // The input handler's rewrite

  /**
   * The cleaned markup differs from the current markup exactly when the
   * region is not in the cleaner's shape: the guard that keeps the handler
   * from rewriting (and moving the caret) on every keystroke.
   */
  lemma RewriteSkippedIff(root: seq<Node>)
    ensures ReparseAll(Sanitizer.CleanAll(ReparseAll(root))) == ReparseAll(root) <==> Sanitizer.AllWellFormed(root)
  {
    var p := ReparseAll(root);
    ReparseAllWellFormed(root);
    ReparseUnchangedIff(root);
    if Sanitizer.AllWellFormed(root) {
      Sanitizer.CleanAllFixesWellFormed(p);
    } else {
      CleanAllRemovesElements(p);
      ReparseAllKeepsElements(Sanitizer.CleanAll(p));
    }
  }

  /** After an input event the region holds the same text. */
  lemma AfterInputKeepsText(root: seq<Node>)
    ensures TextContentOf(AfterInput(root)) == TextContentOf(root)
  {
    var p := ReparseAll(root);
    ReparseAllKeepsText(root);
    Sanitizer.CleanAllKeepsText(p);
    ReparseAllKeepsText(Sanitizer.CleanAll(p));
  }

  /**
   * After an input event the region is in the cleaner's shape, and it was
   * rewritten exactly when it was not; when rewritten it is also in the
   * parser's shape.
   */
  lemma AfterInputWellFormed(root: seq<Node>)
    ensures Sanitizer.AllWellFormed(AfterInput(root))
    ensures AfterInput(root) == root <==> Sanitizer.AllWellFormed(root)
    ensures AfterInput(root) != root ==> Parsed(AfterInput(root))
  {
    var p := ReparseAll(root);
    var c := ReparseAll(Sanitizer.CleanAll(p));
    RewriteSkippedIff(root);
    Sanitizer.CleanAllIsWellFormed(p);
    ReparseAllWellFormed(Sanitizer.CleanAll(p));
    ReparseAllIsParsed(Sanitizer.CleanAll(p));
  }

  /** A second input event with no edit in between changes nothing. */
  lemma AfterInputIdempotent(root: seq<Node>)
    ensures AfterInput(AfterInput(root)) == AfterInput(root)
  {
    AfterInputWellFormed(root);
    AfterInputWellFormed(AfterInput(root));
  }

  /** An empty bold element is cleaned into an empty text node, which the round trip drops: the region is emptied. */
  lemma EmptyBoldEmptiesRegion()
    ensures AfterInput([Element("B", "", [])]) == []
  {
    var root := [Element("B", "", [])];
    assert !Sanitizer.Kept("B", "");
    assert ReparseAll(root) == root;
    assert Sanitizer.CleanAll(root) == [Text("")];
    assert ReparseAll([Text("")]) == [];
  }

  /**
   * A bold element after a text node: the cleaner turns it into a text node,
   * and writing the markup back joins the two texts into one.
   */
  lemma BoldAfterTextJoins()
    ensures AfterInput([Text("a"), Element("B", "", [Text("b")])]) == [Text("ab")]
  {
    var root := [Text("a"), Element("B", "", [Text("b")])];
    assert !Sanitizer.Kept("B", "");
    assert ReparseAll([Text("b")]) == [Text("b")];
    assert ReparseAll(root) == root;
    assert TextContentOf([Text("b")]) == "b";
    assert Sanitizer.CleanAll(root) == [Text("a"), Text("b")];
    var ab := [Text("a"), Text("b")];
    assert ab[1..] == [Text("b")];
    assert Attach(Text("a"), [Text("b")]) == [Text("a" + "b")] + [];
    assert "a" + "b" == "ab";
  }
}
