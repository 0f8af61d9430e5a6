/** The element tree of the xmltree library as an immutable value, with
    elements addressed by paths of child indices from the root. */
module XmlTree {

  newtype byte = x: int | 0 <= x < 256

  /** An XML name: namespace URI and local part. */
  datatype Name = Name(space: string, local: string)

  datatype Attr = Attr(name: Name, value: string)

  /** The start tag of an element: its name and its attribute list. */
  datatype StartElement = StartElement(name: Name, attr: seq<Attr>)

  /** One element: its start tag, the namespace scope in force at it, the raw
      bytes of its content and its children, held by value and in order. */
  datatype Element = Element(start: StartElement, scope: seq<Name>, content: seq<byte>, children: seq<Element>)

  /** The address of an element: the child indices taken from the root down. */
  type Path = seq<nat>

  /** The part of an element that is not its children. */
  datatype Label = Label(start: StartElement, scope: seq<Name>, content: seq<byte>)

  function LabelOf(e: Element): Label
  {
    Label(e.start, e.scope, e.content)
  }

  /** `p` leads from `t` to an element of the tree. */
  predicate ValidPath(t: Element, p: Path)
    decreases |p|
  {
    p == [] || (p[0] < |t.children| && ValidPath(t.children[p[0]], p[1..]))
  }

  /** The element `p` leads to. */
  function At(t: Element, p: Path): Element
    requires ValidPath(t, p)
    decreases |p|
  {
    if p == [] then t else At(t.children[p[0]], p[1..])
  }

  /** `q` is an ancestor-or-self address of `p`. */
  predicate IsPrefix(q: Path, p: Path)
  {
    |q| <= |p| && p[..|q|] == q
  }

  /** The number of elements in the tree rooted at `e`, root included. */
  function Size(e: Element): nat
  {
    1 + SizeList(e.children)
  }

  /** The number of elements in the trees rooted at `cs`. */
  function SizeList(cs: seq<Element>): nat
  {
    if cs == [] then 0 else SizeList(cs[..|cs| - 1]) + Size(cs[|cs| - 1])
  }

  lemma {:induction false} SizeListAppend(a: seq<Element>, b: seq<Element>)
    ensures SizeList(a + b) == SizeList(a) + SizeList(b)
    decreases |b|
  {
    if b == [] {
      assert a + b == a;
    } else {
      var b' := b[..|b| - 1];
      assert (a + b)[..|a + b| - 1] == a + b';
      SizeListAppend(a, b');
    }
  }

  lemma {:induction false} SizeListUpdate(cs: seq<Element>, i: nat, x: Element)
    requires i < |cs|
    ensures SizeList(cs[i := x]) + Size(cs[i]) == SizeList(cs) + Size(x)
  {
    assert cs == cs[..i] + [cs[i]] + cs[i + 1..];
    assert cs[i := x] == cs[..i] + [x] + cs[i + 1..];
    SizeListAppend(cs[..i] + [cs[i]], cs[i + 1..]);
    SizeListAppend(cs[..i] + [x], cs[i + 1..]);
    SizeListAppend(cs[..i], [cs[i]]);
    SizeListAppend(cs[..i], [x]);
    assert [cs[i]][..0] == [];
    assert [x][..0] == [];
  }

  /** A list of leaves counts one element per entry. */
  lemma {:induction false} SizeListLeaves(cs: seq<Element>)
    requires forall j :: 0 <= j < |cs| ==> cs[j].children == []
    ensures SizeList(cs) == |cs|
    decreases |cs|
  {
    if cs != [] {
      SizeListLeaves(cs[..|cs| - 1]);
      assert SizeList(cs[|cs| - 1].children) == 0;
    }
  }
}
