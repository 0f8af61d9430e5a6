/** The element index: every element of a tree listed by its address. */
module Flatten {
  import opened XmlTree

  /** Puts child index `i` in front of every path of `ps`. */
  function Under(i: nat, ps: seq<Path>): (r: seq<Path>)
    ensures |r| == |ps|
    ensures forall j :: 0 <= j < |ps| ==> r[j] == [i] + ps[j]
  {
    seq(|ps|, j requires 0 <= j < |ps| => [i] + ps[j])
  }

  /** Every descendant of `e`, depth first, the root itself excluded
      (the library's Flatten). */
  function Flatten(e: Element): seq<Path>
  {
    FlattenList(e.children)
  }

  /** Every element of the trees rooted at `cs`, addressed from their parent. */
  function FlattenList(cs: seq<Element>): seq<Path>
  {
    if cs == [] then []
    else
      var n := |cs| - 1;
      FlattenList(cs[..n]) + [[n]] + Under(n, Flatten(cs[n]))
  }

  /** The index getElemSet builds: the flattened descendants, then the root. */
  function GetElemSet(t: Element): (r: seq<Path>)
    ensures |r| == |Flatten(t)| + 1
    ensures r[|r| - 1] == [] && At(t, r[|r| - 1]) == t
    ensures r[..|r| - 1] == Flatten(t)
  {
    Flatten(t) + [[]]
  }

  predicate NoDup<T(==)>(s: seq<T>)
  {
    forall i, j :: 0 <= i < j < |s| ==> s[i] != s[j]
  }

  /** `p` addresses, from the parent of `cs`, an element of one of the trees `cs`. */
  predicate ValidIn(cs: seq<Element>, p: Path)
  {
    |p| > 0 && p[0] < |cs| && ValidPath(cs[p[0]], p[1..])
  }

  lemma UnderMembers(i: nat, ps: seq<Path>, q: Path)
    ensures q in Under(i, ps) <==> |q| > 0 && q[0] == i && q[1..] in ps
  {
    var r := Under(i, ps);
    if q in r {
      var j :| 0 <= j < |r| && r[j] == q;
      assert q[1..] == ps[j];
    }
    if |q| > 0 && q[0] == i && q[1..] in ps {
      var j :| 0 <= j < |ps| && ps[j] == q[1..];
      assert r[j] == q;
    }
  }

  /** Flatten lists exactly the addresses of the descendants. */
  lemma {:induction false} FlattenMembers(e: Element, p: Path)
    ensures p in Flatten(e) <==> p != [] && ValidPath(e, p)
    decreases e, 1
  {
    FlattenListMembers(e.children, p);
  }

  lemma {:induction false} FlattenListMembers(cs: seq<Element>, p: Path)
    ensures p in FlattenList(cs) <==> ValidIn(cs, p)
    decreases cs, 0
  {
    if cs != [] {
      var n := |cs| - 1;
      var front := cs[..n];
      FlattenListMembers(front, p);
      if |p| > 0 {
        FlattenMembers(cs[n], p[1..]);
        UnderMembers(n, Flatten(cs[n]), p);
        if p[0] < n {
          assert front[p[0]] == cs[p[0]];
        } else if p[0] == n && |p| == 1 {
          assert p == [n];
        }
      } else {
        UnderMembers(n, Flatten(cs[n]), p);
      }
    }
  }

  /** Every path of FlattenList starts with the index of a tree of `cs`. */
  lemma HeadsBelow(cs: seq<Element>, p: Path)
    requires p in FlattenList(cs)
    ensures |p| > 0 && p[0] < |cs|
  {
    FlattenListMembers(cs, p);
  }

  lemma NoDupAppend<T>(a: seq<T>, b: seq<T>)
    requires NoDup(a) && NoDup(b)
    requires forall x :: x in a ==> x !in b
    ensures NoDup(a + b)
  {
    var s := a + b;
    forall i, j | 0 <= i < j < |s|
      ensures s[i] != s[j]
    {
      if i < |a| && j >= |a| {
        assert s[i] in a && s[j] == b[j - |a|];
      } else if i >= |a| {
        assert s[i] == b[i - |a|] && s[j] == b[j - |a|];
      }
    }
  }

  lemma UnderNoDup(i: nat, ps: seq<Path>)
    requires NoDup(ps)
    ensures NoDup(Under(i, ps))
  {
    var r := Under(i, ps);
    forall a, b | 0 <= a < b < |r|
      ensures r[a] != r[b]
    {
      assert r[a][1..] == ps[a] && r[b][1..] == ps[b];
    }
  }

  /** No element is listed twice. */
  lemma {:induction false} FlattenNoDup(e: Element)
    ensures NoDup(Flatten(e))
    decreases e, 1
  {
    FlattenListNoDup(e.children);
  }

  lemma {:induction false} FlattenListNoDup(cs: seq<Element>)
    ensures NoDup(FlattenList(cs))
    decreases cs, 0
  {
    if cs != [] {
      var n := |cs| - 1;
      var front := FlattenList(cs[..n]);
      var below := Under(n, Flatten(cs[n]));
      FlattenListNoDup(cs[..n]);
      FlattenNoDup(cs[n]);
      UnderNoDup(n, Flatten(cs[n]));
      forall q | q in below
        ensures q != [n] && q !in front
      {
        UnderMembers(n, Flatten(cs[n]), q);
        FlattenMembers(cs[n], q[1..]);
        if q in front {
          HeadsBelow(cs[..n], q);
        }
      }
      forall q | q in front
        ensures q != [n]
      {
        HeadsBelow(cs[..n], q);
      }
      NoDupAppend(front, [[n]]);
      NoDupAppend(front + [[n]], below);
    }
  }

  /** Flatten lists as many addresses as the tree has descendants. */
  lemma {:induction false} FlattenCount(e: Element)
    ensures |Flatten(e)| + 1 == Size(e)
    decreases e, 1
  {
    FlattenListCount(e.children);
  }

  lemma {:induction false} FlattenListCount(cs: seq<Element>)
    ensures |FlattenList(cs)| == SizeList(cs)
    decreases cs, 0
  {
    if cs != [] {
      var n := |cs| - 1;
      FlattenListCount(cs[..n]);
      FlattenCount(cs[n]);
    }
  }

  /** getElemSet names every element of the tree exactly once, root included,
      and has one entry per element. */
  lemma GetElemSetComplete(t: Element)
    ensures forall p :: p in GetElemSet(t) <==> ValidPath(t, p)
    ensures NoDup(GetElemSet(t))
    ensures |GetElemSet(t)| == Size(t)
  {
    forall p
      ensures p in GetElemSet(t) <==> ValidPath(t, p)
    {
      FlattenMembers(t, p);
    }
    FlattenNoDup(t);
    forall q | q in Flatten(t)
      ensures q !in [[]]
    {
      FlattenMembers(t, q);
    }
    NoDupAppend(Flatten(t), [[]]);
    FlattenCount(t);
  }
}
