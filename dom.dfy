/**
 * The editable region's document, as a value.
 *
 * The contenteditable element of the page holds a tree of DOM nodes. Here a
 * node is a text node or an element with its (upper-case) tag name, its class
 * attribute and its children; the editable element itself is the root, given
 * by the sequence of its children. A node is addressed by the path of child
 * indices that leads to it from the root; the empty path names the root.
 */
module Dom {

  datatype Option<T> = None | Some(value: T)

  datatype Node =
    | Text(data: string)
    | Element(tag: string, className: string, children: seq<Node>)

  const BR: string := "BR"
  const SPAN: string := "SPAN"

  /** A position in the document: a container node (by path) and an offset into it. */
  datatype Boundary = Boundary(container: seq<nat>, offset: nat)

  /** The window's selection: no range at all, or one range from `start` to `end`. */
  datatype Selection = NoRange | Range(start: Boundary, end: Boundary)

  /** A collapsed selection sitting at `b`. */
  function Caret(b: Boundary): (s: Selection)
    ensures s.Range? && s.start == s.end == b
  {
    Range(b, b)
  }

  /** The DOM's length of a node: characters of a text node, children of an element. */
  function NodeLength(n: Node): nat
  {
    match n
    case Text(d) => |d|
    case Element(_, _, ch) => |ch|
  }

  /** A boundary a range may be set to: its node exists and its offset is at most the node's length. */
  predicate ValidBoundary(root: seq<Node>, b: Boundary)
  {
    if b.container == [] then b.offset <= |root|
    else ValidPath(root, b.container) && b.offset <= NodeLength(At(root, b.container))
  }

  // ---------------------------------------------------------------------------
  // textContent

  /** The DOM's `textContent`: the data of every descendant text node, in order. */
  function TextContent(n: Node): string
  {
    match n
    case Text(d) => d
    case Element(_, _, ch) => TextContentOf(ch)
  }

  function TextContentOf(ns: seq<Node>): string
  {
    if ns == [] then "" else TextContent(ns[0]) + TextContentOf(ns[1..])
  }

  lemma {:induction false} TextContentOfAppend(a: seq<Node>, b: seq<Node>)
    ensures TextContentOf(a + b) == TextContentOf(a) + TextContentOf(b)
  {
    if a == [] {
      assert a + b == b;
    } else {
      assert (a + b)[1..] == a[1..] + b;
      TextContentOfAppend(a[1..], b);
    }
  }

  lemma TextContentOfSingle(n: Node)
    ensures TextContentOf([n]) == TextContent(n)
  {
    assert [n][1..] == [];
  }

  /** Replacing the node at index k by nodes with the same text keeps the text of the list. */
  lemma TextContentOfSplice(ns: seq<Node>, k: nat, mid: seq<Node>, m: nat)
    requires k <= m <= |ns|
    ensures TextContentOf(ns[..k] + mid + ns[m..])
         == TextContentOf(ns[..k]) + TextContentOf(mid) + TextContentOf(ns[m..])
  {
    TextContentOfAppend(ns[..k] + mid, ns[m..]);
    TextContentOfAppend(ns[..k], mid);
  }

  /** The text of a list, cut into the part before index k, node k, and the part after. */
  lemma TextContentOfAt(ns: seq<Node>, k: nat)
    requires k < |ns|
    ensures TextContentOf(ns) == TextContentOf(ns[..k]) + TextContent(ns[k]) + TextContentOf(ns[k + 1..])
  {
    assert ns == ns[..k] + ns[k..];
    TextContentOfAppend(ns[..k], ns[k..]);
    assert ns[k..][1..] == ns[k + 1..];
  }

  // ---------------------------------------------------------------------------
  // Paths

  /** `p` leads from the root's children `ns` to a node. */
  predicate ValidPath(ns: seq<Node>, p: seq<nat>)
    decreases p
  {
    |p| > 0 && p[0] < |ns| &&
    (|p| == 1 || (ns[p[0]].Element? && ValidPath(ns[p[0]].children, p[1..])))
  }

  function At(ns: seq<Node>, p: seq<nat>): Node
    requires ValidPath(ns, p)
    decreases p
  {
    if |p| == 1 then ns[p[0]] else At(ns[p[0]].children, p[1..])
  }

  /** `p` names a node that has children: the root, or an element. */
  predicate IsContainer(ns: seq<Node>, p: seq<nat>)
  {
    p == [] || (ValidPath(ns, p) && At(ns, p).Element?)
  }

  /** The child list of the container at `p`. */
  function ChildrenAt(ns: seq<Node>, p: seq<nat>): seq<Node>
    requires IsContainer(ns, p)
    decreases p
  {
    if p == [] then ns else ChildrenAt(ns[p[0]].children, p[1..])
  }

  /** The document with the child list of the container at `p` replaced by `c`. */
  function WithChildrenAt(ns: seq<Node>, p: seq<nat>, c: seq<Node>): seq<Node>
    requires IsContainer(ns, p)
    decreases p
  {
    if p == [] then c
    else
      var n := ns[p[0]];
      ns[p[0] := Element(n.tag, n.className, WithChildrenAt(n.children, p[1..], c))]
  }

  lemma {:induction false} ChildrenAtWith(ns: seq<Node>, p: seq<nat>, c: seq<Node>)
    requires IsContainer(ns, p)
    ensures IsContainer(WithChildrenAt(ns, p, c), p)
    ensures ChildrenAt(WithChildrenAt(ns, p, c), p) == c
    decreases p
  {
    if p != [] {
      ChildrenAtWith(ns[p[0]].children, p[1..], c);
    }
  }

  /** Editing a child list without changing its text keeps the text of the whole document. */
  lemma {:induction false} TextContentOfWith(ns: seq<Node>, p: seq<nat>, c: seq<Node>)
    requires IsContainer(ns, p)
    requires TextContentOf(c) == TextContentOf(ChildrenAt(ns, p))
    ensures TextContentOf(WithChildrenAt(ns, p, c)) == TextContentOf(ns)
    decreases p
  {
    if p != [] {
      var n := ns[p[0]];
      TextContentOfWith(n.children, p[1..], c);
      var n' := Element(n.tag, n.className, WithChildrenAt(n.children, p[1..], c));
      TextContentOfAt(ns, p[0]);
      TextContentOfAt(ns[p[0] := n'], p[0]);
      assert ns[p[0] := n'][..p[0]] == ns[..p[0]];
      assert ns[p[0] := n'][p[0] + 1..] == ns[p[0] + 1..];
    }
  }

  /** The parent of a non-root path. */
  function Parent(p: seq<nat>): seq<nat>
    requires p != []
  {
    p[..|p| - 1]
  }

  function Last(p: seq<nat>): nat
    requires p != []
  {
    p[|p| - 1]
  }

  lemma {:induction false} ParentIsContainer(ns: seq<Node>, p: seq<nat>)
    requires ValidPath(ns, p)
    ensures IsContainer(ns, Parent(p))
    ensures Last(p) < |ChildrenAt(ns, Parent(p))|
    ensures ChildrenAt(ns, Parent(p))[Last(p)] == At(ns, p)
    decreases p
  {
    if |p| > 1 {
      ParentIsContainer(ns[p[0]].children, p[1..]);
      assert Parent(p) == [p[0]] + Parent(p[1..]);
      assert Parent(p)[1..] == Parent(p[1..]);
      if Parent(p[1..]) != [] {
        ValidPathCons(ns, p[0], Parent(p[1..]));
      }
    }
  }

  lemma ValidPathCons(ns: seq<Node>, i: nat, q: seq<nat>)
    requires i < |ns| && ns[i].Element? && ValidPath(ns[i].children, q)
    ensures ValidPath(ns, [i] + q) && At(ns, [i] + q) == At(ns[i].children, q)
  {
    assert ([i] + q)[1..] == q;
  }

  /** Extending a container's path by one of its child indices gives a valid path to that child. */
  lemma {:induction false} ChildPath(ns: seq<Node>, p: seq<nat>, k: nat)
    requires IsContainer(ns, p) && k < |ChildrenAt(ns, p)|
    ensures ValidPath(ns, p + [k]) && At(ns, p + [k]) == ChildrenAt(ns, p)[k]
    decreases p
  {
    if p != [] {
      ChildPath(ns[p[0]].children, p[1..], k);
      assert (p + [k])[1..] == p[1..] + [k];
      assert (p + [k])[0] == p[0];
    }
  }

  /** An element's path names a container whose child list is the element's children. */
  lemma {:induction false} ChildrenOfElement(root: seq<Node>, p: seq<nat>)
    requires ValidPath(root, p) && At(root, p).Element?
    ensures IsContainer(root, p) && ChildrenAt(root, p) == At(root, p).children
    decreases p
  {
    if |p| > 1 {
      ChildrenOfElement(root[p[0]].children, p[1..]);
    }
  }

  /** Replacing a child list changes the document's text length by the difference in the list's text length. */
  lemma {:induction false} TextContentOfWithLength(ns: seq<Node>, p: seq<nat>, c: seq<Node>)
    requires IsContainer(ns, p)
    ensures |TextContentOf(WithChildrenAt(ns, p, c))| + |TextContentOf(ChildrenAt(ns, p))|
         == |TextContentOf(ns)| + |TextContentOf(c)|
    decreases p
  {
    if p != [] {
      var n := ns[p[0]];
      TextContentOfWithLength(n.children, p[1..], c);
      var n' := Element(n.tag, n.className, WithChildrenAt(n.children, p[1..], c));
      TextContentOfAt(ns, p[0]);
      TextContentOfAt(ns[p[0] := n'], p[0]);
      assert ns[p[0] := n'][..p[0]] == ns[..p[0]];
      assert ns[p[0] := n'][p[0] + 1..] == ns[p[0] + 1..];
    }
  }

  /** After its child list is replaced, an element keeps its tag and class and has the new children. */
  lemma {:induction false} AtWithChildren(ns: seq<Node>, p: seq<nat>, c: seq<Node>)
    requires p != [] && IsContainer(ns, p)
    ensures ValidPath(WithChildrenAt(ns, p, c), p)
    ensures At(WithChildrenAt(ns, p, c), p) == Element(At(ns, p).tag, At(ns, p).className, c)
    decreases p
  {
    if |p| > 1 {
      AtWithChildren(ns[p[0]].children, p[1..], c);
    }
  }
}
