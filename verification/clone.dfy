/** childlessClone: a fresh element carrying another's start tag and content. */
module Clone {
  import opened XmlTree

  /** A new element with `e`'s start tag and content bytes and no children.
      The namespace scope is not carried over: the clone is built from a zero
      element and only its start tag and content are set. */
  function ChildlessClone(e: Element): (r: Element)
    ensures r.start.name == e.start.name && r.start.attr == e.start.attr
    ensures r.content == e.content
    ensures r.children == [] && r.scope == []
  {
    Element(e.start, [], e.content, [])
  }

  /** Two elements have the same clone exactly when they agree on start tag and content. */
  lemma CloneSees(e1: Element, e2: Element)
    ensures ChildlessClone(e1) == ChildlessClone(e2) <==> e1.start == e2.start && e1.content == e2.content
  {
  }

  /** Cloning leaves an element unchanged exactly when it has no children and no scope. */
  lemma CloneFixpoint(e: Element)
    ensures ChildlessClone(e) == e <==> e.children == [] && e.scope == []
  {
  }

  lemma CloneIdempotent(e: Element)
    ensures ChildlessClone(ChildlessClone(e)) == ChildlessClone(e)
  {
  }

  /** A clone is a single element with no descendants. */
  lemma CloneSize(e: Element)
    ensures Size(ChildlessClone(e)) == 1
  {
  }
}
