# A verified model of the path-addressed tree of `tried`

The Go package `pkg/node` of `tried` defines `Class[T]`, a tree of nodes. Each node has:

- a string id;
- an optional payload;
- an ordered list of children;
- a link to its parent.

Nodes are addressed by separator-delimited paths such as `ABC.DEF.GHI`. The package offers these operations:

- `New` builds a node.
- `AppendChild` attaches a child.
- `GetChildById` returns the first child with a given id.
- `setData` sets a payload, either replacing an existing one or rejecting it.
- `Insert` walks a path down from a node. It creates missing children on the way and sets the payload of the last one.
- `Search` looks a path up without changing anything.
- `Locate` rebuilds a node's path by climbing its parent links.

This project models that core in Dafny and proves what these operations promise.

The model is split into modules:

- **`Strings`** (`strings.dfy`) models Go's `strings.Index`, `strings.Split` and `strings.Join` for a non-empty separator, with the facts the recursion rests on:
  - the pieces of a split join back to the string;
  - re-joining all but the first segment and splitting again gives those segments back, and the re-joined string is shorter;
  - separable segments split back out of their join. A segment is separable when no occurrence of the separator starts inside it, including one that runs on into the separator after it; for a one-character separator, this means the segment does not contain it.
- **`Arena`** (`arena.dfy`) holds the nodes. They live in one sequence of node records, and a node is an index into it. Each record holds:
  - the id;
  - the payload (`Option`);
  - the indices of the children, in order;
  - the parent link.

  `Valid` says two things:
  - every child index names a newer node whose parent link points back;
  - every parent link points to an older node.

  The module also defines first-match lookup (`FirstChild`), descending through first-matching ids (`Walk`), how far that descent gets and where it stops (`Matched`, `Deepest`), and the ids from the root down to a node (`Lineage`).
- **`Node`** (`node.dfy`) holds the class `Tree`. Its one field is the arena, and its methods update that field in place, as the Go methods update their receiver:
  - `New` and `AppendChild`;
  - `SetData`;
  - `GetChildById`, a scan loop;
  - `Insert`, recursive, with the same split / re-join / recurse structure as the Go code;
  - `Locate`, a loop up the parent links.
- **`Insertion`** (`insertion.dfy`) states what one `Insert` does to the arena (`Inserted`). It also holds the lemmas that carry that statement through one level of the recursion.
- **`Lookup`** (`lookup.dfy`) defines `Search`, a read-only recursion, as functions: as written and as evidently intended (`SearchMatching`). It also proves what each one finds.
- **`RoundTrip`** (`roundtrip.dfy`) connects the operations: Locate then Search, Insert then Search, Insert then Locate, and Insert twice, with and without replacement. It also holds a concrete tree on which `Search` as written returns the wrong node.

Two facts about the code that the model makes precise:

- A node that Insert creates has no payload, so `AlreadyExists` is only possible when the target already existed, and then no node was created on the way. `Inserted` states that both errors leave the arena unchanged.
- `TestSearch` (`class_test.go:271-279`) expects `Locate` of the node `Search` returns to give back the searched path. Search as written does not guarantee this when two subtrees hold the same id at the same depth; see Findings.

## Model

| member | source | states |
|---|---|---|
| Strings.IndexFrom | pkg/node/class.go:88 | `strings.Index` (`Index` is `IndexFrom` from 0): the result is -1 or a position where the separator occurs, and the separator occurs nowhere before it, nor anywhere when the result is -1. |
| Strings.NoneBefore | pkg/node/class.go:88 | The part of a string before the first occurrence of the separator holds no occurrence of it. |
| Strings.Split | pkg/node/class.go:46 | `strings.Split` for a non-empty separator: there is always at least one segment, and no segment holds the separator. Its inverse is Join (JoinSplit, SplitJoin). |
| Strings.JoinCons | pkg/node/class.go:54 | `strings.Join`: joining a segment in front of at least one more puts the separator right after it. `Join` itself carries no contract; JoinSplit and SplitJoin tie it to Split. |
| Strings.SplitShape | pkg/node/class.go:88-99 | Splitting gives at least one segment. The empty path is one empty segment. There is exactly one segment iff the separator does not occur, and then that segment is the whole path. |
| Strings.JoinSplit | pkg/node/class.go:101 | Joining the segments of a split with the same separator gives back the original string. |
| Strings.SplitTail | pkg/node/class.go:101 | For a path of more than one segment, the re-joined tail splits back into exactly the tail segments, and it is strictly shorter than the path, so the recursion of Insert and Search ends. |
| Strings.SplitJoin | pkg/node/class.go:131-144 | A join of separable segments splits back into those segments, so the path Locate builds splits into the lineage. A segment is separable when no occurrence of the separator starts inside it, including one that runs on into the separator after it; for a one-character separator, this means the segment does not contain it. |
| Strings.SeparableOneChar | pkg/node/class.go:131-144 | For a one-character separator, a segment is separable exactly when it does not contain that character. |
| Arena.FirstWithId | pkg/node/class.go:122-129 | Returns the position of the first node in the list whose id matches: no earlier node matches, and the node at that position does. The position is the length of the list when none matches. |
| Arena.FirstChild | pkg/node/class.go:103-108 | A result is a child of `n`, newer than `n`, with the requested id, and it is the child at the first position with that id (no earlier child has it). There is no result exactly when no child has that id. |
| Arena.Matched | pkg/node/class.go:101-112 | How many of the segments the descent through first-matching children finds before a segment has no matching child: all of them exactly when the descent reaches a node. |
| Arena.Deepest | pkg/node/class.go:101-112 | The node where that descent stops is reached through the matched segments, and when a segment is left over, none of its children has that segment as id. It is the node below which Insert creates children. |
| Arena.WalkLineage | pkg/node/class_test.go:253 | The node reached by descending through first-matching ids, as chained `GetChildById` calls do, has as lineage the lineage of the start followed by those ids; with Locate this is the path of TestLocate. |
| Arena.ChildLineage | pkg/node/class.go:134-141 | A child's parent link points back to its parent, and its lineage is the parent's followed by its own id. |
| Arena.Root | pkg/node/class.go:134-141 | The top of the parent chain is no newer than the node, has no parent, and is the first entry of the node's lineage: its lineage is the node's lineage cut to its first id. |
| Node.Tree.New | pkg/node/class.go:15-26 | Adds one node with the given id, payload and parent and no children. Nothing else changes and the arena stays valid. The new node is in no children list. |
| Node.Tree.AppendChild | pkg/node/class.go:28-36 | The child is placed last among the children of `n`, and its parent link is `n`. Earlier children keep their order. Nothing else changes and the arena stays valid. |
| Node.Tree.SetData | pkg/node/class.go:65-80 | An absent payload is always set. A present one is overwritten iff `replace` holds, with the node as result. Otherwise the result is AlreadyExists and nothing changes. |
| Node.Tree.GetChildById | pkg/node/class.go:122-129 | Returns the first child, in children order, whose id is `id`. Returns nothing iff no child has that id. |
| Node.Tree.Insert | pkg/node/class.go:82-120 | Ensures `Inserted` for the split path, and the arena stays valid. `Inserted` fixes the new arena: the new nodes are exactly one chain, for the segments the first-match descent does not find, hung as the last child below the node where it stops. No other node changes children, no id or parent link changes, only the target's payload changes, BadPath and AlreadyExists occur exactly when the code returns them and leave the arena unchanged, and on success the descent reaches the returned node, which holds the payload. |
| Insertion.Inserted | pkg/node/class.go:82-120 | The predicate stated by `Node.Tree.Insert`; its clauses are listed after this table. |
| Insertion.ChainCompose | pkg/node/class.go:109-119 | Attaching a fresh child and then hanging a chain below it hangs one longer chain below the parent. |
| Insertion.ChainCreated | pkg/node/class.go:109-119 | When the child had to be created, the chain below `n` is that child followed by the chain the recursive Insert adds below it. |
| Insertion.ChainFound | pkg/node/class.go:103-108 | When the child was found, the chain is the one the recursive Insert adds, hung where the descent from `n` stops. |
| Insertion.StepChain | pkg/node/class.go:101-119 | One level of Insert keeps the chain statement: the chain of the recursive call, with the created child in front when there was one. |
| Insertion.LeafChain | pkg/node/class.go:93-99 | With a single segment no node is created and no children list changes. |
| Insertion.NoChain | pkg/node/class.go:82-120 | An Insert that adds an empty chain adds no node and changes no id, parent link or children list. |
| Insertion.WalkUnchanged | pkg/node/class.go:103-108 | Two arenas that agree on every id and children list agree on every first-match descent. |
| Insertion.InsertedLeaf | pkg/node/class.go:93-99 | With one segment, Insert sets the payload of `n` when the segment is its id, and otherwise fails with BadPath. The payload follows `setData`. |
| Insertion.InsertedStep | pkg/node/class.go:101-119 | The recursion: inserting the tail into the first child with the second segment's id (or a fresh one) is an Insert of the whole path from `n`. |
| Insertion.StepCreated | pkg/node/class.go:109-119 | When the child had to be created, the composed step still grows the arena by fresh-id children only, and keeps every payload except the target's. |
| Insertion.StepWalks | pkg/node/class.go:103-112 | The walk from `n` goes through the selected child. A freshly created child has no payload and no children, so only the empty walk from it arrives. |
| Insertion.WalkThroughChild | pkg/node/class.go:114-119 | The recursive Insert below the child leaves the first-match step from `n` to that child as it was. |
| Insertion.AttachNewFacts | pkg/node/class.go:109-112 | Attaching a fresh child when none has its id changes only the children of `n`, adds no payload, and makes the new node the first child with that id. |
| Lookup.Search | pkg/node/class.go:38-63 | Search as written. It fails with BadPath exactly for the empty path, and otherwise with NotFound. A result is a node of the arena. |
| Lookup.SearchKids | pkg/node/class.go:54-61 | The child loop of Search. It swallows every child error, BadPath included, so it only ever fails with NotFound. |
| Lookup.FindConcat | pkg/node/class.go:54-61 | Searching a concatenation finds in the first part if it can, and otherwise in the second, which is the first-success order of the child loop. |
| Lookup.SearchIsFirstAtDepth | pkg/node/class.go:38-63 | As written, Search of a path with k+1 segments returns the first node, in depth-first order, that is k levels below `n` and whose id is the last segment. |
| Lookup.SearchKidsAtDepth | pkg/node/class.go:54-61 | The same for the child loop from position `i`: the first such node below the children from `i` on. |
| Lookup.InLevel | pkg/node/class.go:54-61 | The depth-first list of nodes k levels below `n` holds exactly the nodes k child steps below `n`. |
| Lookup.InLevelFrom | pkg/node/class.go:54-61 | The same for the children of `n` from position `i` on. |
| Lookup.SearchComparesLastOnly | pkg/node/class.go:38-63 | As written, a result of Search is k child steps below `n` and has the last segment as its id. Search fails for a non-empty last segment only when no node k steps below has that id. No other segment is compared. |
| Lookup.SearchMatching | pkg/node/class.go:38-63 | The corrected Search. It fails with BadPath exactly for the empty path, and otherwise with NotFound. |
| Lookup.SearchMatchingKids | pkg/node/class.go:54-61 | The corrected child loop, which only searches children whose id is the next segment. It fails only with NotFound. |
| Lookup.MatchingSound | pkg/node/class.go:38-63 | Corrected Search only returns a node reached from `n` through children whose ids are the segments after the first. With a single segment it returns only `n`, and only when the segment is its id. |
| Lookup.MatchingKidsSound | pkg/node/class.go:54-61 | A success of the corrected child loop comes through a child with the right id, below which the remaining segments lead to the result. |
| Lookup.MatchingComplete | pkg/node/class.go:38-63 | Corrected Search succeeds whenever such a node exists and the last segment is not empty. |
| Lookup.MatchingChildComplete | pkg/node/class.go:54-61 | The corrected child loop succeeds whenever the segments lead from `n` to a node. |
| Lookup.MatchingKidsComplete | pkg/node/class.go:54-61 | The corrected child loop from position `i` succeeds when a child at a later position has the right id and leads on to a node. |
| Lookup.MatchingUnfold | pkg/node/class.go:54 | One level of corrected Search is its child loop for the second segment and the re-joined tail. That tail splits back into the tail segments and is shorter. |
| Lookup.SearchUnfold | pkg/node/class.go:54-55 | One level of Search as written is its child loop for the re-joined tail, which splits back into the tail segments and is shorter. |
| Lookup.WalkIsFound | pkg/node/class.go:103-108 | Where descending through first-matching ids reaches a node, corrected Search returns exactly that node. |
| Lookup.WalkKidsFound | pkg/node/class.go:103-108 | The corrected child loop, up to the first child with the right id, returns what descending from that child finds. |
| Lookup.AlongLineage | pkg/node/class.go:131-144 | Descending through children with ids `ids` extends the lineage by exactly `ids`. |
| Lookup.AlongExtend | pkg/node/class.go:131-144 | One more step down to a child extends the ids by that child's id. |
| Lookup.AttachedAlong | pkg/node/class.go:131-144 | A node attached all the way up is reached from its root through its lineage after the root's id. |
| Node.Tree.Locate | pkg/node/class.go:131-144 | Returns the ids from the root down to `n`, joined by the separator. For a root this is just its own id. |
| Node.ClimbStep | pkg/node/class.go:135-141 | One climb step keeps the lineage gathered so far, and puts the parent's id and the separator in front of the path. |
| RoundTrip.LocateThenSearch | pkg/node/class_test.go:264-282 | Corrected Search of Locate's path, from the root, finds a node with the same lineage. It assumes every id is separable: no occurrence of the separator starts inside the id or straddles its end. For a one-character separator this just means the id does not contain it (`SeparableOneChar`). For the last id this is more than the round trip needs, which is only that the last id holds no occurrence of the separator. It also assumes a non-empty last id, and every node on the way in its parent's children. |
| RoundTrip.InsertThenSearch | pkg/node/class.go:82-120 | After a successful Insert of a path with a non-empty last segment, corrected Search of that path finds the node Insert returned, which holds the inserted payload. |
| RoundTrip.InsertThenLocate | pkg/node/class_test.go:159-194 | After a successful Insert, the lineage of the returned node is that of `n` followed by the segments after the first. From a root whose id is the first segment, Locate of the returned node gives back the inserted path. |
| RoundTrip.InsertTwiceReplaces | pkg/node/class.go:65-80 | A second Insert with replacement at a path just inserted succeeds at the same node, which then holds the new payload. No node is added, and the new arena is the old one with only that node's payload replaced. |
| RoundTrip.ReplaceExisting | pkg/node/class_test.go:109-120 | Insert with replacement at a path whose target exists succeeds there. The new arena is the old one with only the target's payload replaced. |
| RoundTrip.OnlyPayload | pkg/node/class.go:70-72 | Two arenas that agree everywhere except the payload of one node differ by exactly that payload update. |
| RoundTrip.InsertTwiceRejects | pkg/node/class_test.go:145-167 | A second Insert without replacement at a path just inserted fails with AlreadyExists and changes nothing. |
| RoundTrip.SearchMissesLocated | pkg/node/class.go:54-61 | On the tree ABC→DEF→GHI, ABC→MNO→GHI, Search as written for `ABC.MNO.GHI` returns the GHI under DEF, whose lineage and payload differ. Corrected Search returns the GHI under MNO. |
| RoundTrip.SampleLevel | pkg/node/class.go:54-61 | The nodes two levels below the root of that tree are, in depth-first order, the GHI under DEF and then the GHI under MNO. |

`Insertion.Inserted` is the promise `Node.Tree.Insert` ensures, for a path split into segments `s0..sk`:

- Nodes are only added, and ids and parent links stay.
- Let the descent from `n` through first-matching ids `s1..sk` find the first `j` of them and stop at node `s` (`Matched`, `Deepest`). Then exactly `k - j` nodes are added. They form one chain with ids `s(j+1)..sk`. The first is appended as the last child of `s`, each has the next as its only child, and the last has none (`ChainAdded`).
- No node other than `s` changes its children.
- Each node gains at most one child, whose id no earlier sibling has.
- Only the target's payload changes, and new nodes carry none.
- Nodes are created exactly when descending through first-matching ids `s1..sk` fails.
- On success, that descent reaches the returned node, which holds the payload.
- BadPath occurs exactly for a single segment that is not the id of `n`.
- AlreadyExists occurs exactly when replacement is off and the target already holds a payload.
- Both errors leave the arena unchanged.

## Left out

- Node.Tree.AppendChild: Go passes the child by value and appends a copy. The model attaches an arena node instead, and requires that node to be newer than `n` and in no children list. It models the tree the Go code builds, not the copying and aliasing of Go values.
- Node.Tree.Insert: requires a non-empty separator, and the `len(lineage) == 0` branch (class.go:89-91) is left out. `strings.Split` with an empty separator splits into UTF-8 characters, and only then can it return no segments. Insert's scan over the children is the loop of `GetChildById`, which does the same first-match scan.
- Lookup.Search: requires a non-empty separator, for the same reason.
- Lookup.SearchMatching: requires a non-empty separator, for the same reason.
- Node.Tree.Locate: `fmt.Sprintf("%s%s%s", …)` is string concatenation.
- Strings: Go strings are byte sequences. `len` counts bytes, and `strings.Index` and `strings.Split` match bytes. The model takes strings as sequences of Unicode characters, so Go strings that are not valid UTF-8 are not modelled. For valid UTF-8, equality, concatenation and separator search give the same results on bytes as on characters.
- Node.Tree.New: Go returns a pointer; the model returns the index of the new arena node.
- Node.Tree.GetChildById: Go returns a pointer; the model returns that child's index.
- Node.Tree.AppendChild: when the appended node already has children, Go sets `Parent` only on the appended copy. The grandchildren still point at the original, whose `Parent` stays nil, so Go's Locate from a grandchild stops at the original node. For example, appending GHI to DEF and then DEF to ABC makes Go's Locate of GHI return `DEF.GHI`, while the model's Locate returns `ABC.DEF.GHI`. The model links every child to the node it is attached to, so its Locate results match Go only for trees built top-down, as Insert and the tests build them.
- Stale parent pointers are not modelled. In Go, a slice that reallocates leaves the `Parent` pointers of grandchildren aimed at old copies. For trees built top-down those copies carry the same ids and parent links, so the parent relation of the arena gives the same Locate results.
- Stale result pointers are not modelled. Suppose `p` is the node `root.Insert("r.A")` returns, and `root.Insert("r.B")` then makes `root.Children` reallocate (class.go:32-35, 105, 111). In Go, `p.Insert("A.C")` then changes a copy the root no longer holds, so `root.Search("r.A.C")` fails. In the model a node is an arena index that stays live, so the same search succeeds.
- Go's `Search` is a method with a `for` loop. It never changes the tree, so it is modelled as functions of the arena value.
- JSON struct tags (class.go:9-12) are not modelled: nothing in the core serialises.
- `cmd/main.go` is not part of this model: it calls a `tried` package whose source is not part of this model.
- The tests in `class_test.go` are not modelled; their expectations appear as the lemmas above.
- There is no concurrency in the core.

## Findings

| source | as written | input that shows it | evidently intended | confidence | as-written member | corrected member |
|---|---|---|---|---|---|---|
| pkg/node/class.go:54-61 | Each child is searched for the re-joined remaining segments without comparing the child's id with the segment it is entered for. Only the last segment is ever compared with an id. | Tree ABC with children DEF and MNO, each with a child GHI. `Search("ABC.MNO.GHI", ".")` from ABC returns the GHI under DEF, whose Locate is `ABC.DEF.GHI` and whose payload is not the one inserted at `ABC.MNO.GHI`. | Search only children whose id is the next segment. Then the node found for a path has that path, and an inserted path finds the inserted node. | high (not executed) | RoundTrip.SearchMissesLocated | Lookup.SearchMatching |
