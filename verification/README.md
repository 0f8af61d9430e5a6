# XML structural fuzz-mutator: element index and spam mutation

This project models the core of a structural fuzzer for XML trees
(`XMLGenerator.go`). A document holder owns a parsed element tree, an index of
every element in it, and a log of operation descriptions. The one mutation,
`spamElementBreadthWise`, draws a parent and a child from the index. It then
appends ten childless clones of the child to the parent's children.

The model is functional:

- `XmlTree` — the library's element as an immutable value
  `Element(start, scope, content, children)`. Children are held by value and in
  order. An element is addressed by a *path*: the child indices taken from the
  root down. `Size` counts the elements of a tree.
- `Flatten` — the library's `Flatten` (every descendant, root excluded, depth
  first) and `getElemSet` (that list followed by the root), as lists of paths.
- `Clone` — `childlessClone`.
- `Mutate` — appending at a path (`AppendAt`), and `Spam`: ten clones of the
  child, taken as it was before the call, appended to the parent.
- `Holder` — `mXMLHolder`, `createXMLHolder`, `read`, `selectElement`, and
  `spamElementBreadthWise` as a method. The method runs the ten-iteration loop
  of `spamElementBreadthWise` in XMLGenerator.go, cloning the child afresh at
  each iteration, and is proved equal to `Spam`: a clone reads only the
  child's start tag and content, which no append changes.

Randomness is made explicit. `selectElement` takes the drawn position as an
argument. `spamElementBreadthWise` takes the two drawn positions. The
position must lie inside the index, just as `Intn` needs a positive bound.

`read` takes the outcome of opening, reading and parsing the file as a value
`Result<Element>`. A failure (`OpenFailed`, `ReadFailed`, `ParseFailed`)
becomes a `Fatal` result, which stands for `log.Fatal` ending the run.

## Model

| member | source | states |
|---|---|---|
| Holder.CreateXMLHolder | XMLGenerator.go:24-28 | a new holder has no tree, an empty index, and a log holding exactly the given description |
| Holder.Read | XMLGenerator.go:33-53 | read fails exactly when opening, reading or parsing fails, with that error; on success the tree is the parsed one, the index is untouched, and the log grows by exactly one entry `"Read in XML from: " + file + "\n"`, with every earlier entry unchanged |
| Holder.ReadAllLog | XMLGenerator.go:50-51 | a run of reads succeeds exactly when every load does; the log is then the earlier log followed by one read entry per file, in order |
| Holder.CreateThenReadAll | XMLGenerator.go:24-51 | after creation and any successful run of reads, the first log entry is still the description and there is one further entry per read |
| Flatten.GetElemSet | XMLGenerator.go:58-65 | the index is the flattened descendants followed by the root: one entry longer than Flatten, with the root's address last |
| Flatten.FlattenMembers | XMLGenerator.go:59-62 | Flatten lists exactly the addresses of the descendants; the root is not among them |
| Flatten.FlattenNoDup | XMLGenerator.go:13-16 | Flatten lists no element twice |
| Flatten.FlattenCount | XMLGenerator.go:59-63 | Flatten has one entry fewer than the tree has elements |
| Flatten.GetElemSetComplete | XMLGenerator.go:55-64 | the index names every element of the tree exactly once, root included: membership is exactly address validity, no entry repeats, and the length is the element count |
| Holder.BuildIndex | XMLGenerator.go:13-20 | storing getElemSet of the tree as the index gives an index that is current and all of whose addresses are valid, with tree and log untouched |
| Holder.SelectElement | XMLGenerator.go:71-76 | a draw at a position inside the index returns an entry of the index; when the index is valid, that entry addresses an element of the tree |
| Holder.SelectExactlyOnce | XMLGenerator.go:71-76 | over a current index, an address can be drawn exactly when it is an element of the tree, and distinct positions draw distinct elements, so a uniform position is a uniform element |
| Clone.ChildlessClone | XMLGenerator.go:82-89 | the clone has the name, attributes and content of the cloned element and no children whatever that element had; its namespace scope is empty |
| Clone.CloneSees | XMLGenerator.go:82-89 | two elements have equal clones exactly when they agree on start tag and content, so children and scope never affect the clone |
| Clone.CloneFixpoint | XMLGenerator.go:82-89 | cloning returns the element itself exactly when it has no children and an empty scope |
| Clone.CloneIdempotent | XMLGenerator.go:82-89 | cloning a clone gives the same clone |
| Clone.CloneSize | XMLGenerator.go:82-89 | a clone is a single element, with no descendants |
| Mutate.AppendAt | XMLGenerator.go:103 | appending at an address keeps the root's start tag, scope and content; at the root the new children are the old ones followed by the appended ones, and below the root the root's child count is unchanged |
| Mutate.AppendAtTarget | XMLGenerator.go:103 | the element at the address keeps everything but its children, which become its old children followed by the appended ones |
| Mutate.AppendAtKeeps | XMLGenerator.go:103 | every old address remains valid and leads to an element with the same start tag, scope and content |
| Mutate.AppendAtElsewhere | XMLGenerator.go:103 | every element whose address is not an ancestor-or-self of the target is unchanged |
| Mutate.AppendAtSize | XMLGenerator.go:103 | the tree grows by exactly the size of what is appended |
| Mutate.AppendAtNothing | XMLGenerator.go:101 | appending no children leaves the tree as it was |
| Mutate.AppendAtTwice | XMLGenerator.go:101-104 | appending one list and then another at the same address equals appending their concatenation once |
| Mutate.Clones | XMLGenerator.go:101-102 | the clone list has the requested length and every entry is the childless clone of the child |
| Mutate.SpamEffect | XMLGenerator.go:97-106 | a parent with k children ends with k + 10: the first k unchanged, each of the last 10 the childless clone of the child as it was before the call; the tree has exactly 10 more elements; every old address stays valid with start tag, scope and content unchanged; every element off the route from root to parent is unchanged. This holds when parent and child coincide or one lies below the other |
| Mutate.AbcScenario | XMLGenerator.go:97-106 | in `<a><b/><c/></a>` with parent `a` and child `b`, `a` ends with twelve children: `c` once and `b` eleven times, with no children on any clone |
| Holder.SpamElementBreadthWise | XMLGenerator.go:97-106 | the loop that re-clones the child from the current tree at each of its 10 iterations yields exactly the snapshot mutation Spam; the index and log are unchanged, and every index address stays valid |
| Holder.SpamGrowsIndex | XMLGenerator.go:97-104 | after one spam, rebuilding the index gives exactly 10 more entries |

## Left out

- File opening and reading (`os.Open`, `ioutil.ReadAll`) and `xmltree.Parse` are external. Their outcome is a parameter of `Read`. XML serialisation is not modelled.
- `log.Fatal` process termination is modelled as a `Fatal` result that ends a run of reads (`ReadAll`). The error message is not modelled.
- Seeding from `time.Now().UnixNano()` and the draw by `math/rand` are replaced by explicit positions. Uniformity itself is not stated; `SelectExactlyOnce` shows that a uniform position gives a uniform element.
- Go pointers into children slices that `append` may reallocate are not modelled. XMLGenerator.go never rebuilds `elemSet` after a mutation, and its old pointers may then refer to detached copies. In the model, index entries are paths that keep addressing the live tree (`IndexValid` is preserved). The two agree whenever the index is rebuilt (`BuildIndex`) after each read and after each mutation.
- Read: after a read, the model's index paths address the newly read tree, while the Go pointers in `elemSet` still address the old tree. A spam before the index is rebuilt then changes the live tree in the model but only the detached old tree in Go.
- Defensive copying in `StartElement.Copy()` and `copy(content, …)` is not modelled separately. In an immutable value model, the clone shares nothing mutable with its source anyway.
- The library's `Flatten` order is not part of this model. The model lists depth first, and no property depends on the order.
- XMLGenerator.go never assigns `elemSet`; its caller does, and `BuildIndex` models that step.
- `ChildlessClone` keeps the start tag's namespace (`Name.Space`, copied with `StartElement.Copy()`), but not the library's per-element namespace `Scope`. The clone is built from a zero `xmltree.Element` (XMLGenerator.go:83-84), so `scope` is empty.
