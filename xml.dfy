/** The XML documents the routines read and edit, abstracted from the DOM
    that the parser builds: elements with attributes and children, and text.
    A node inside a document is addressed by the child indexes leading to it
    from the document element. Parsing, serialising and XPath evaluation are
    foreign code; the queries the routines run are written out on this tree
    where they are used. */
module Xml {
  import opened Results

  datatype Node =
    | Element(name: string, attrs: map<string, string>, children: seq<Node>)
    | Text(value: string)

  type Path = seq<nat>

  /** The node a path leads to, if any. */
  function At(n: Node, p: Path): Option<Node>
    decreases |p|
  {
    if p == [] then Some(n)
    else if n.Element? && p[0] < |n.children| then At(n.children[p[0]], p[1..])
    else None
  }

  predicate IsElementAt(n: Node, p: Path)
  {
    At(n, p).Some? && At(n, p).value.Element?
  }

  /** The value of attribute `a` on the element at `p`. */
  function AttrAt(n: Node, p: Path, a: string): Option<string>
  {
    var m := At(n, p);
    if m.Some? && m.value.Element? && a in m.value.attrs then Some(m.value.attrs[a]) else None
  }

  /** `string(.)`: the text of all descendant text nodes, in order. */
  function StringValue(n: Node): string
    decreases n, 1
  {
    match n
    case Text(v) => v
    case Element(_, _, cs) => ChildrenValue(n, 0)
  }

  function ChildrenValue(n: Node, i: nat): string
    requires n.Element? && i <= |n.children|
    decreases n, 0, |n.children| - i
  {
    if i == |n.children| then ""
    else StringValue(n.children[i]) + ChildrenValue(n, i + 1)
  }

  /** The paths of all elements of a tree in document order,
      the root element first. */
  function ElementPaths(n: Node): (r: seq<Path>)
    ensures forall j :: 0 <= j < |r| ==> IsElementAt(n, r[j])
    decreases n, 1
  {
    match n
    case Text(_) => []
    case Element(_, _, _) => [[]] + ChildPaths(n, 0)
  }

  function ChildPaths(n: Node, i: nat): (r: seq<Path>)
    requires n.Element? && i <= |n.children|
    ensures forall j :: 0 <= j < |r| ==> IsElementAt(n, r[j])
    decreases n, 0, |n.children| - i
  {
    if i == |n.children| then []
    else
      var sub := ElementPaths(n.children[i]);
      var here := seq(|sub|, j requires 0 <= j < |sub| => [i] + sub[j]);
      assert forall j :: 0 <= j < |here| ==> here[j][1..] == sub[j] && here[j][0] == i;
      here + ChildPaths(n, i + 1)
  }

  /** The first element child with the given name. */
  function FirstChildNamed(n: Node, name: string): Option<Node>
  {
    if n.Text? then None else FirstNamed(n.children, name)
  }

  function FirstNamed(cs: seq<Node>, name: string): (r: Option<Node>)
    ensures r.Some? ==> r.value in cs && r.value.Element? && r.value.name == name
  {
    if cs == [] then None
    else if cs[0].Element? && cs[0].name == name then Some(cs[0])
    else FirstNamed(cs[1..], name)
  }

  // ---------------------------------------------------------------------
  // Pending updates

  /** The three XQuery Update primitives the routines issue:
      `replace value of node $el/@a with $v`, `replace value of node $el
      with $text` and `replace node $el with $text`. */
  datatype Edit =
    | ReplaceAttributeValue(at: Path, attr: string, value: string)
    | ReplaceElementValue(at: Path, text: string)
    | ReplaceWithText(at: Path, text: string)

  /** The node at `p` replaced by `f` of it; nothing changes when `p` leads
      nowhere. */
  function ReplaceAt(n: Node, p: Path, f: Node -> Node): Node
    decreases |p|
  {
    if p == [] then f(n)
    else if n.Element? && p[0] < |n.children| then
      n.(children := n.children[p[0] := ReplaceAt(n.children[p[0]], p[1..], f)])
    else n
  }

  function SetAttr(attr: string, value: string): Node -> Node
  {
    (m: Node) => if m.Element? && attr in m.attrs then m.(attrs := m.attrs[attr := value]) else m
  }

  function SetText(text: string): Node -> Node
  {
    (m: Node) => if m.Element? then m.(children := if text == "" then [] else [Text(text)]) else m
  }

  function ToText(text: string): Node -> Node
  {
    (m: Node) => Text(text)
  }

  function ApplyEdit(n: Node, e: Edit): Node
  {
    match e
    case ReplaceAttributeValue(p, a, v) => ReplaceAt(n, p, SetAttr(a, v))
    case ReplaceElementValue(p, t) => ReplaceAt(n, p, SetText(t))
    case ReplaceWithText(p, t) => ReplaceAt(n, p, ToText(t))
  }

  /** Executing a pending update list: its edits, in order. */
  function Apply(n: Node, edits: seq<Edit>): Node
    decreases |edits|
  {
    if edits == [] then n else Apply(ApplyEdit(n, edits[0]), edits[1..])
  }

  // ---------------------------------------------------------------------
  // What an edit changes

  predicate IsPrefix(p: Path, q: Path)
  {
    |p| <= |q| && q[..|p|] == p
  }

  /** Neither path leads through the other's node. */
  predicate Apart(p: Path, q: Path)
  {
    !IsPrefix(p, q) && !IsPrefix(q, p)
  }

  lemma PrefixTails(p: Path, q: Path)
    requires p != [] && q != [] && p[0] == q[0]
    ensures IsPrefix(p, q) <==> IsPrefix(p[1..], q[1..])
  {
    if |p| <= |q| {
      assert q[..|p|] == [q[0]] + q[1..][..|p| - 1];
      assert p == [p[0]] + p[1..];
    }
  }

  /** Replacing the node at `p` puts `f` of the old node there and leaves
      every node off that path alone. */
  lemma {:induction false} ReplaceAtEffect(n: Node, p: Path, f: Node -> Node, q: Path)
    requires At(n, p).Some?
    ensures At(ReplaceAt(n, p, f), p) == Some(f(At(n, p).value))
    ensures Apart(p, q) ==> At(ReplaceAt(n, p, f), q) == At(n, q)
    decreases |p|
  {
    if p != [] {
      var i := p[0];
      var n' := ReplaceAt(n, p, f);
      assert n'.children == n.children[i := ReplaceAt(n.children[i], p[1..], f)];
      ReplaceAtEffect(n.children[i], p[1..], f, if q != [] then q[1..] else []);
      if q != [] && q[0] == i {
        PrefixTails(p, q);
        PrefixTails(q, p);
      }
    }
  }

  /** Children whose texts agree give their parents the same text. */
  lemma {:induction false} ChildrenValueSame(a: Node, b: Node, i: nat)
    requires a.Element? && b.Element? && |a.children| == |b.children| && i <= |a.children|
    requires forall j :: i <= j < |a.children| ==> StringValue(a.children[j]) == StringValue(b.children[j])
    ensures ChildrenValue(a, i) == ChildrenValue(b, i)
    decreases |a.children| - i
  {
    if i < |a.children| {
      ChildrenValueSame(a, b, i + 1);
    }
  }

  /** Replacing a node by one with the same text keeps the text of the
      whole tree. */
  lemma {:induction false} ReplaceAtKeepsString(n: Node, p: Path, f: Node -> Node)
    requires At(n, p).Some?
    requires StringValue(f(At(n, p).value)) == StringValue(At(n, p).value)
    ensures StringValue(ReplaceAt(n, p, f)) == StringValue(n)
    decreases |p|
  {
    if p != [] {
      var i := p[0];
      var m := ReplaceAt(n, p, f);
      ReplaceAtKeepsString(n.children[i], p[1..], f);
      assert m.children == n.children[i := ReplaceAt(n.children[i], p[1..], f)];
      ChildrenValueSame(m, n, 0);
    }
  }

  /** Replacing an attribute value keeps the shape of the tree: the same
      element at every path, with the same name, children shape and other
      attributes. */
  predicate SameShape(a: Node, b: Node)
    decreases a
  {
    match a
    case Text(_) => b.Text?
    case Element(name, attrs, cs) =>
      b.Element? && b.name == name && attrs.Keys == b.attrs.Keys && |cs| == |b.children| &&
      forall i :: 0 <= i < |cs| ==> SameShape(cs[i], b.children[i])
  }
}
