/** The one mutation: append childless clones of one element to the children
    of another, both addressed by path. */
module Mutate {
  import opened XmlTree
  import opened Clone

  /** How many clones spamElementBreadthWise appends. */
  const SpamCount: nat := 10

  /** `t` with `extra` appended to the children of the element at `p`. */
  function AppendAt(t: Element, p: Path, extra: seq<Element>): (r: Element)
    requires ValidPath(t, p)
    ensures LabelOf(r) == LabelOf(t)
    ensures p == [] ==> r.children == t.children + extra
    ensures p != [] ==> |r.children| == |t.children|
    decreases |p|
  {
    if p == [] then t.(children := t.children + extra)
    else t.(children := t.children[p[0] := AppendAt(t.children[p[0]], p[1..], extra)])
  }

  /** `n` childless clones of `c`. */
  function Clones(c: Element, n: nat): (r: seq<Element>)
    ensures |r| == n
    ensures forall j :: 0 <= j < n ==> r[j] == ChildlessClone(c)
  {
    seq(n, _ => ChildlessClone(c))
  }

  /** spamElementBreadthWise on chosen addresses: SpamCount clones of the
      child, as it was before the call, appended to the parent's children. */
  function Spam(t: Element, parent: Path, child: Path): Element
    requires ValidPath(t, parent) && ValidPath(t, child)
  {
    AppendAt(t, parent, Clones(At(t, child), SpamCount))
  }

  /** The element at `p` receives exactly `extra`, after its own children. */
  lemma {:induction false} AppendAtTarget(t: Element, p: Path, extra: seq<Element>)
    requires ValidPath(t, p)
    ensures ValidPath(AppendAt(t, p, extra), p)
    ensures At(AppendAt(t, p, extra), p) == At(t, p).(children := At(t, p).children + extra)
    decreases |p|
  {
    if p != [] {
      AppendAtTarget(t.children[p[0]], p[1..], extra);
    }
  }

  /** Every address of the old tree is an address of the new one, and the
      element there keeps its start tag, scope and content. */
  lemma {:induction false} AppendAtKeeps(t: Element, p: Path, extra: seq<Element>, q: Path)
    requires ValidPath(t, p) && ValidPath(t, q)
    ensures ValidPath(AppendAt(t, p, extra), q)
    ensures LabelOf(At(AppendAt(t, p, extra), q)) == LabelOf(At(t, q))
    decreases |q|
  {
    var r := AppendAt(t, p, extra);
    if q != [] {
      var k := q[0];
      if p != [] && p[0] == k {
        AppendAtKeeps(t.children[k], p[1..], extra, q[1..]);
      } else {
        assert r.children[k] == t.children[k];
      }
    }
  }

  /** Off the route from the root to `p`, every element is unchanged. */
  lemma {:induction false} AppendAtElsewhere(t: Element, p: Path, extra: seq<Element>, q: Path)
    requires ValidPath(t, p) && ValidPath(t, q)
    requires !IsPrefix(q, p)
    ensures ValidPath(AppendAt(t, p, extra), q)
    ensures At(AppendAt(t, p, extra), q) == At(t, q)
    decreases |q|
  {
    var r := AppendAt(t, p, extra);
    assert q != [];
    var k := q[0];
    if p != [] && p[0] == k {
      assert !IsPrefix(q[1..], p[1..]);
      AppendAtElsewhere(t.children[k], p[1..], extra, q[1..]);
    } else {
      assert r.children[k] == t.children[k];
    }
  }

  /** The tree grows by exactly the elements appended. */
  lemma {:induction false} AppendAtSize(t: Element, p: Path, extra: seq<Element>)
    requires ValidPath(t, p)
    ensures Size(AppendAt(t, p, extra)) == Size(t) + SizeList(extra)
    decreases |p|
  {
    if p == [] {
      SizeListAppend(t.children, extra);
    } else {
      var k := p[0];
      AppendAtSize(t.children[k], p[1..], extra);
      SizeListUpdate(t.children, k, AppendAt(t.children[k], p[1..], extra));
    }
  }

  /** Appending nothing changes nothing. */
  lemma {:induction false} AppendAtNothing(t: Element, p: Path)
    requires ValidPath(t, p)
    ensures AppendAt(t, p, []) == t
    decreases |p|
  {
    if p == [] {
      assert t.children + [] == t.children;
    } else {
      AppendAtNothing(t.children[p[0]], p[1..]);
    }
  }

  /** Appending twice at one address is appending the concatenation once. */
  lemma {:induction false} AppendAtTwice(t: Element, p: Path, x: seq<Element>, y: seq<Element>)
    requires ValidPath(t, p)
    ensures ValidPath(AppendAt(t, p, x), p)
    ensures AppendAt(AppendAt(t, p, x), p, y) == AppendAt(t, p, x + y)
    decreases |p|
  {
    AppendAtTarget(t, p, x);
    if p == [] {
      assert t.children + x + y == t.children + (x + y);
    } else {
      var k := p[0];
      AppendAtTwice(t.children[k], p[1..], x, y);
    }
  }

  /** The effect of one spam: the parent keeps its k children and gains
      SpamCount more, each a childless clone of the child as it was; the tree
      has SpamCount more elements; every old address still leads to an element
      with the same start tag, scope and content; and every element off the
      route from the root to the parent is unchanged. Parent and child may be
      the same element, or one may lie below the other. */
  lemma SpamEffect(t: Element, parent: Path, child: Path)
    requires ValidPath(t, parent) && ValidPath(t, child)
    ensures var r := Spam(t, parent, child);
      var k := |At(t, parent).children|;
      && ValidPath(r, parent)
      && |At(r, parent).children| == k + SpamCount
      && At(r, parent).children[..k] == At(t, parent).children
      && (forall j :: k <= j < k + SpamCount ==> At(r, parent).children[j] == ChildlessClone(At(t, child)))
      && LabelOf(At(r, parent)) == LabelOf(At(t, parent))
      && Size(r) == Size(t) + SpamCount
    ensures forall q :: ValidPath(t, q) ==>
      ValidPath(Spam(t, parent, child), q) && LabelOf(At(Spam(t, parent, child), q)) == LabelOf(At(t, q))
    ensures forall q :: ValidPath(t, q) && !IsPrefix(q, parent) ==>
      ValidPath(Spam(t, parent, child), q) && At(Spam(t, parent, child), q) == At(t, q)
  {
    var extra := Clones(At(t, child), SpamCount);
    var r := Spam(t, parent, child);
    var k := |At(t, parent).children|;
    AppendAtTarget(t, parent, extra);
    assert At(r, parent).children == At(t, parent).children + extra;
    assert forall j :: k <= j < k + SpamCount ==> At(r, parent).children[j] == extra[j - k];
    AppendAtSize(t, parent, extra);
    SizeListLeaves(extra);
    forall q | ValidPath(t, q)
      ensures ValidPath(r, q) && LabelOf(At(r, q)) == LabelOf(At(t, q))
    {
      AppendAtKeeps(t, parent, extra, q);
    }
    forall q | ValidPath(t, q) && !IsPrefix(q, parent)
      ensures ValidPath(r, q) && At(r, q) == At(t, q)
    {
      AppendAtElsewhere(t, parent, extra, q);
    }
  }

  /** An element with no namespace, attributes, scope, content or children. */
  function Leaf(local: string): Element
  {
    Element(StartElement(Name("", local), []), [], [], [])
  }

  /** In `<a><b/><c/></a>`, spamming clones of `b` under `a` leaves `a` with
      twelve children: eleven `b`s (the original and ten clones, none with
      children) and the one `c`, second. */
  lemma AbcScenario()
    ensures var a := Leaf("a").(children := [Leaf("b"), Leaf("c")]);
      var r := Spam(a, [], [0]);
      && r.start == a.start
      && |r.children| == 12
      && r.children[1] == Leaf("c")
      && (forall j :: 0 <= j < 12 && j != 1 ==> r.children[j] == Leaf("b"))
  {
    var a := Leaf("a").(children := [Leaf("b"), Leaf("c")]);
    var r := Spam(a, [], [0]);
    assert r.children == [Leaf("b"), Leaf("c")] + Clones(Leaf("b"), SpamCount);
  }
}
