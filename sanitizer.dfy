/**
 * The cleaner run after every input event: it walks the tree top-down and
 * replaces every element that is neither a line break nor a span whose class
 * passes /ansi-\d+/ by one text node holding that element's text; it only
 * descends into the elements it keeps.
 *
 * `Clean` says what one node becomes; `CleanNode` and `CleanChildren` are the
 * walk, which visits a snapshot of each child list and replaces children in
 * place.
 */
module Sanitizer {
  import opened Dom
  import opened AnsiClass
  import Encoder

  /** An element the cleaner keeps: a BR, or a SPAN whose class passes /ansi-\d+/ (any number). */
  predicate Kept(tag: string, cls: string)
  {
    tag == BR || (tag == SPAN && HasAnsiClass(cls))
  }

  function Clean(n: Node): Node
  {
    match n
    case Text(_) => n
    case Element(tag, cls, ch) =>
      if Kept(tag, cls) then Element(tag, cls, CleanAll(ch)) else Text(TextContentOf(ch))
  }

  function CleanAll(ns: seq<Node>): (r: seq<Node>)
    ensures |r| == |ns|
    ensures forall j :: 0 <= j < |ns| ==> r[j] == Clean(ns[j])
  {
    if ns == [] then [] else [Clean(ns[0])] + CleanAll(ns[1..])
  }

  /** The shape the cleaner leaves: every element is a BR or an ansi span, all the way down. */
  predicate WellFormed(n: Node)
  {
    match n
    case Text(_) => true
    case Element(tag, cls, ch) => Kept(tag, cls) && AllWellFormed(ch)
  }

  predicate AllWellFormed(ns: seq<Node>)
  {
    forall j :: 0 <= j < |ns| ==> WellFormed(ns[j])
  }

  /**
   * One node, as `cleanNode` treats it: text is left alone; a rejected element
   * becomes one text node with its text and its descendants are not visited;
   * a kept element keeps its tag and class and has its children cleaned.
   */
  method CleanNode(n: Node) returns (r: Node)
    ensures r == Clean(n)
    decreases n
  {
    match n
    case Text(_) =>
      r := n;
    case Element(tag, cls, ch) =>
      if tag != SPAN && tag != BR {
        r := Text(TextContentOf(ch));
        return;
      }
      if tag == SPAN && !HasAnsiClass(cls) {
        r := Text(TextContentOf(ch));
        return;
      }
      var cleaned := CleanChildren(ch);
      r := Element(tag, cls, cleaned);
  }

  /**
   * A child list, as `Array.from(node.childNodes).forEach(cleanNode)` treats
   * it (and as the whole editable region is treated): each child of the
   * snapshot is cleaned and put back at its own index.
   */
  method CleanChildren(nodes: seq<Node>) returns (r: seq<Node>)
    ensures r == CleanAll(nodes)
    decreases nodes
  {
    r := nodes;
    var i := 0;
    while i < |nodes|
      invariant i <= |nodes| && |r| == |nodes|
      invariant forall j :: 0 <= j < i ==> r[j] == Clean(nodes[j])
      invariant forall j :: i <= j < |nodes| ==> r[j] == nodes[j]
    {
      var cleaned := CleanNode(nodes[i]);
      r := r[i := cleaned];
      i := i + 1;
    }
  }

  // ---------------------------------------------------------------------------
  // Properties

  /** Cleaning never changes the document's text. */
  lemma {:induction false} CleanKeepsText(n: Node)
    ensures TextContent(Clean(n)) == TextContent(n)
    decreases n, 1
  {
    match n
    case Text(_) =>
    case Element(tag, cls, ch) =>
      if Kept(tag, cls) {
        CleanAllKeepsText(ch);
      }
  }

  lemma {:induction false} CleanAllKeepsText(ns: seq<Node>)
    ensures TextContentOf(CleanAll(ns)) == TextContentOf(ns)
    decreases ns, 0
  {
    if ns != [] {
      CleanKeepsText(ns[0]);
      CleanAllKeepsText(ns[1..]);
      assert CleanAll(ns)[1..] == CleanAll(ns[1..]);
    }
  }

  /** After cleaning, every element is a BR or an ansi span. */
  lemma {:induction false} CleanIsWellFormed(n: Node)
    ensures WellFormed(Clean(n))
    decreases n, 1
  {
    match n
    case Text(_) =>
    case Element(tag, cls, ch) =>
      if Kept(tag, cls) {
        CleanAllIsWellFormed(ch);
      }
  }

  lemma {:induction false} CleanAllIsWellFormed(ns: seq<Node>)
    ensures AllWellFormed(CleanAll(ns))
    decreases ns, 0
  {
    forall j | 0 <= j < |ns| ensures WellFormed(CleanAll(ns)[j]) {
      CleanIsWellFormed(ns[j]);
    }
  }

  /** A well-formed tree is left exactly as it is. */
  lemma {:induction false} CleanFixesWellFormed(n: Node)
    requires WellFormed(n)
    ensures Clean(n) == n
    decreases n, 1
  {
    match n
    case Text(_) =>
    case Element(tag, cls, ch) =>
      CleanAllFixesWellFormed(ch);
  }

  lemma {:induction false} CleanAllFixesWellFormed(ns: seq<Node>)
    requires AllWellFormed(ns)
    ensures CleanAll(ns) == ns
    decreases ns, 0
  {
    forall j | 0 <= j < |ns| ensures CleanAll(ns)[j] == ns[j] {
      CleanFixesWellFormed(ns[j]);
    }
  }

  /**
   * The cleaner changes a document exactly when the document is not yet
   * well-formed: the condition under which the input handler writes the
   * cleaned tree back, and the fixpoint that keeps it from rewriting forever.
   */
  lemma CleanUnchangedIff(ns: seq<Node>)
    ensures CleanAll(ns) == ns <==> AllWellFormed(ns)
  {
    CleanAllIsWellFormed(ns);
    if AllWellFormed(ns) {
      CleanAllFixesWellFormed(ns);
    }
  }

  /** Cleaning twice is cleaning once. */
  lemma CleanIdempotent(ns: seq<Node>)
    ensures CleanAll(CleanAll(ns)) == CleanAll(ns)
  {
    CleanAllIsWellFormed(ns);
    CleanAllFixesWellFormed(CleanAll(ns));
  }

  /** Every span the cleaner keeps carries a class from which the encoder reads a code. */
  lemma KeptSpanHasCode(tag: string, cls: string)
    requires Kept(tag, cls) && tag != BR
    ensures AnsiCode(cls).Some?
  {
  }

  /** A cleaned document whose text has no ESC character is one the encoder renders without losing text. */
  lemma {:induction false} WellFormedIsEncodable(n: Node)
    requires WellFormed(n) && Encoder.ESC !in TextContent(n)
    ensures Encoder.Encodable(n)
    decreases n, 1
  {
    match n
    case Text(_) =>
    case Element(tag, cls, ch) =>
      if tag != BR {
        AllWellFormedIsEncodable(ch);
      }
  }

  lemma {:induction false} AllWellFormedIsEncodable(ns: seq<Node>)
    requires AllWellFormed(ns) && Encoder.ESC !in TextContentOf(ns)
    ensures Encoder.EncodableAll(ns)
    decreases ns, 0
  {
    if ns != [] {
      WellFormedIsEncodable(ns[0]);
      assert forall j :: 0 <= j < |ns[1..]| ==> ns[1..][j] == ns[j + 1];
      AllWellFormedIsEncodable(ns[1..]);
    }
  }

  /**
   * What the exported message shows of a cleaned document is the document's
   * text with a newline for each line break: the cleaner leaves nothing that
   * the encoder would drop.
   */
  lemma CleanedExportShowsText(ns: seq<Node>)
    requires Encoder.ESC !in TextContentOf(ns)
    ensures Encoder.Visible(Encoder.EncodeNodes(CleanAll(ns), Encoder.Sentinel))
         == Encoder.RenderedOf(CleanAll(ns))
  {
    CleanAllIsWellFormed(ns);
    CleanAllKeepsText(ns);
    AllWellFormedIsEncodable(CleanAll(ns));
    Encoder.VisibleEncoding(CleanAll(ns));
  }

  // ---------------------------------------------------------------------------
  // Well-formedness under edits of one child list

  lemma {:induction false} ChildrenAtWellFormed(ns: seq<Node>, p: seq<nat>)
    requires AllWellFormed(ns) && IsContainer(ns, p)
    ensures AllWellFormed(ChildrenAt(ns, p))
    decreases p
  {
    if p != [] {
      ChildrenAtWellFormed(ns[p[0]].children, p[1..]);
    }
  }

  /** Putting a well-formed child list into a well-formed document at a node that stays a BR or an ansi span keeps it well-formed. */
  lemma {:induction false} WithChildrenAtWellFormed(ns: seq<Node>, p: seq<nat>, c: seq<Node>)
    requires AllWellFormed(ns) && IsContainer(ns, p) && AllWellFormed(c)
    ensures AllWellFormed(WithChildrenAt(ns, p, c))
    decreases p
  {
    if p != [] {
      var n := ns[p[0]];
      WithChildrenAtWellFormed(n.children, p[1..], c);
      var n' := Element(n.tag, n.className, WithChildrenAt(n.children, p[1..], c));
      assert WellFormed(n');
    }
  }
}
