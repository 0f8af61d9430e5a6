/** The document holder: the tree, its element index and the operation log,
    with the operations the fuzzer runs on them. */
module Holder {
  import opened XmlTree
  import opened Flatten
  import opened Clone
  import opened Mutate

  datatype Option<T> = None | Some(value: T)

  /** The three ways loading a document ends the run. */
  datatype LoadError = OpenFailed | ReadFailed | ParseFailed

  /** `Fatal` stands for log.Fatal: the run ends with the error. */
  datatype Result<T> = Ok(value: T) | Fatal(error: LoadError)

  /** mXMLHolder: the tree (absent until a document is read), the element
      index and the log of operation descriptions. */
  datatype XmlHolder = XmlHolder(tree: Option<Element>, elemSet: seq<Path>, description: seq<string>)

  /** Every address in the index leads to an element of the tree. */
  predicate IndexValid(s: XmlHolder)
  {
    s.elemSet == [] || (s.tree.Some? && forall p :: p in s.elemSet ==> ValidPath(s.tree.value, p))
  }

  /** The index is the one getElemSet builds from the current tree. */
  predicate IndexFresh(s: XmlHolder)
  {
    s.tree.Some? && s.elemSet == GetElemSet(s.tree.value)
  }

  /** A holder with no tree, no index and the given description as its only log entry. */
  function CreateXMLHolder(description: string): (s: XmlHolder)
    ensures s.tree.None? && |s.elemSet| == 0
    ensures |s.description| == 1 && s.description[0] == description
    ensures IndexValid(s)
  {
    XmlHolder(None, [], [description])
  }

  /** The log entry a successful read appends. */
  function ReadEntry(file: string): string
  {
    "Read in XML from: " + file + "\n"
  }

  /** read: `loaded` is what opening `file`, reading it whole and parsing it
      produced. Any failure is fatal; on success the tree is replaced, one
      entry is appended to the log, and the index is left as it was. */
  function Read(s: XmlHolder, file: string, loaded: Result<Element>): (r: Result<XmlHolder>)
    ensures r.Fatal? <==> loaded.Fatal?
    ensures r.Fatal? ==> r.error == loaded.error
    ensures r.Ok? ==>
      && r.value.tree == Some(loaded.value)
      && r.value.elemSet == s.elemSet
      && |r.value.description| == |s.description| + 1
      && r.value.description[..|s.description|] == s.description
      && r.value.description[|s.description|] == "Read in XML from: " + file + "\n"
  {
    match loaded
    case Fatal(e) => Fatal(e)
    case Ok(t) => Ok(s.(tree := Some(t), description := s.description + [ReadEntry(file)]))
  }

  /** A run of reads, one per (file, outcome) pair, ending at the first failure. */
  function ReadAll(s: XmlHolder, loads: seq<(string, Result<Element>)>): Result<XmlHolder>
    decreases |loads|
  {
    if loads == [] then Ok(s)
    else
      match Read(s, loads[0].0, loads[0].1)
      case Fatal(e) => Fatal(e)
      case Ok(s') => ReadAll(s', loads[1..])
  }

  /** The log only grows: a run of reads succeeds exactly when every load
      does, and then the log is the earlier log followed by one entry per file,
      in order. */
  lemma {:induction false} ReadAllLog(s: XmlHolder, loads: seq<(string, Result<Element>)>)
    ensures ReadAll(s, loads).Ok? <==> forall i :: 0 <= i < |loads| ==> loads[i].1.Ok?
    ensures ReadAll(s, loads).Ok? ==>
      ReadAll(s, loads).value.description == s.description + seq(|loads|, i requires 0 <= i < |loads| => ReadEntry(loads[i].0))
    decreases |loads|
  {
    if loads != [] {
      var rest := loads[1..];
      match Read(s, loads[0].0, loads[0].1)
      case Fatal(e) =>
      case Ok(s') =>
        ReadAllLog(s', rest);
        assert forall i :: 1 <= i < |loads| ==> loads[i] == rest[i - 1];
        if ReadAll(s, loads).Ok? {
          var entries := seq(|loads|, i requires 0 <= i < |loads| => ReadEntry(loads[i].0));
          var later := seq(|rest|, i requires 0 <= i < |rest| => ReadEntry(rest[i].0));
          assert entries == [ReadEntry(loads[0].0)] + later;
        }
    }
  }

  /** A fresh holder's first log entry is its description, whatever is read afterwards. */
  lemma CreateThenReadAll(description: string, loads: seq<(string, Result<Element>)>)
    ensures ReadAll(CreateXMLHolder(description), loads).Ok? ==>
      && |ReadAll(CreateXMLHolder(description), loads).value.description| == 1 + |loads|
      && ReadAll(CreateXMLHolder(description), loads).value.description[0] == description
  {
    ReadAllLog(CreateXMLHolder(description), loads);
  }

  /** The caller's step that stores getElemSet of the tree as the index. */
  function BuildIndex(s: XmlHolder): (r: XmlHolder)
    requires s.tree.Some?
    ensures IndexFresh(r) && IndexValid(r)
    ensures r.tree == s.tree && r.description == s.description
  {
    GetElemSetComplete(s.tree.value);
    s.(elemSet := GetElemSet(s.tree.value))
  }

  /** selectElement with the random draw made explicit as the position `i`. */
  function SelectElement(s: XmlHolder, i: nat): (r: Path)
    requires i < |s.elemSet|
    ensures r in s.elemSet
    ensures IndexValid(s) ==> s.tree.Some? && ValidPath(s.tree.value, r)
  {
    s.elemSet[i]
  }

  /** Over a fresh index, each element of the tree is drawn by exactly one
      position, so a uniform draw of the position is a uniform draw of the element. */
  lemma SelectExactlyOnce(s: XmlHolder, p: Path)
    requires IndexFresh(s)
    ensures ValidPath(s.tree.value, p) <==> exists i :: 0 <= i < |s.elemSet| && SelectElement(s, i) == p
    ensures forall i, j :: 0 <= i < |s.elemSet| && 0 <= j < |s.elemSet| && SelectElement(s, i) == SelectElement(s, j) ==> i == j
  {
    GetElemSetComplete(s.tree.value);
    if ValidPath(s.tree.value, p) {
      var i :| 0 <= i < |s.elemSet| && s.elemSet[i] == p;
      assert SelectElement(s, i) == p;
    }
  }

  /** spamElementBreadthWise with the two draws made explicit: the parent is
      the element at position `pi` of the index and the child the one at `ci`.
      The loop clones the child afresh at each iteration; a clone reads only
      the child's start tag and content, which no append changes, so this
      equals cloning once before the loop. */
  method SpamElementBreadthWise(s: XmlHolder, pi: nat, ci: nat) returns (r: XmlHolder)
    requires IndexValid(s)
    requires pi < |s.elemSet| && ci < |s.elemSet|
    ensures r.tree.Some? && s.tree.Some?
    ensures r.tree.value == Spam(s.tree.value, s.elemSet[pi], s.elemSet[ci])
    ensures r.elemSet == s.elemSet && r.description == s.description
    ensures IndexValid(r)
  {
    var parent := SelectElement(s, pi);
    var child := SelectElement(s, ci);
    var t0 := s.tree.value;
    var c0 := At(t0, child);
    var t := t0;
    AppendAtNothing(t0, parent);
    for i := 0 to SpamCount
      invariant ValidPath(t, parent) && ValidPath(t, child)
      invariant ChildlessClone(At(t, child)) == ChildlessClone(c0)
      invariant t == AppendAt(t0, parent, Clones(c0, i))
      invariant forall q :: ValidPath(t0, q) ==> ValidPath(t, q)
    {
      var clone := ChildlessClone(At(t, child));
      AppendAtTwice(t0, parent, Clones(c0, i), [clone]);
      assert Clones(c0, i) + [clone] == Clones(c0, i + 1);
      forall q | ValidPath(t0, q)
        ensures ValidPath(AppendAt(t, parent, [clone]), q)
      {
        AppendAtKeeps(t, parent, [clone], q);
      }
      AppendAtKeeps(t, parent, [clone], child);
      AppendAtKeeps(t, parent, [clone], parent);
      t := AppendAt(t, parent, [clone]);
    }
    r := s.(tree := Some(t));
  }

  /** After one spam, rebuilding the index yields SpamCount more entries. */
  lemma SpamGrowsIndex(t: Element, parent: Path, child: Path)
    requires ValidPath(t, parent) && ValidPath(t, child)
    ensures |GetElemSet(Spam(t, parent, child))| == |GetElemSet(t)| + SpamCount
  {
    SpamEffect(t, parent, child);
    GetElemSetComplete(t);
    GetElemSetComplete(Spam(t, parent, child));
  }
}
