# Adaptive radix tree (purehyperbole/art), modelled in Dafny

The Go package `art` is a lock-free adaptive radix tree. It maps byte-string
keys to `Comparable` values. Each node holds three things:

- a compressed `prefix`;
- an optional `value`;
- an edge set: children indexed by the next key byte.

The edge set comes in four layouts, Node4, Node16, Node48 and Node256, and a
set moves one layout up when it fills. Writers never change a reachable node:

- they build a replacement node;
- they publish it into the parent's edge cell with a compare-and-swap;
- they start again when the compare-and-swap loses.

`Insert` and `Swap` locate a key with `find` and pick one of four mutators:

- insert a leaf;
- update a node;
- split a prefix two ways;
- split a prefix three ways.

`Lookup` reads a key. `Iterate` walks a subtree in byte order.

The repository has two generations of edge set, and both are modelled:

- **The `edges` interface** (edges.go, edges4.go, edges16.go, edges48.go,
  edges256.go). Each layout is an object with `next`, `setNext`, `copy`,
  `upgrade` and `full`. Module `EdgeLayouts` models them as classes over
  arrays. Each class has a `Valid()` invariant and a ghost `Map()` that reads
  the arrays as a map from byte to child. Every method is proved against
  that map.
- **The tagged `edges` struct** of node.go. It is one struct whose `ntype`
  selects the layout of two slices.
  - Module `NodeEdges` models it as a value, `EdgeSet`, with `Abs(e)` as its
    map.
  - Module `EdgeStruct` models it as a class over arrays. Every method
    ensures `Value() == NodeEdges.F(old(Value()), …)`, and the `NodeEdges`
    lemmas say what each `F` does to the map.
  - Module `Slots` holds what the layouts share: the search, the
    shift-insert, the index table, and the readings of each layout as a map.

The tree itself is modelled on values:

- `Nodes.Node` is a node.
- `Nodes.Get` is the reference semantics: the value a key reaches, consuming
  one edge byte and then the child's prefix.
- `ArtSpec` models `find`, the dispatch predicates, the mutators and the
  publication of a new parent up the path (`Graft`).
- `ArtProofs` proves that an insert stores the key and keeps every other key.
- `Iteration` models `iterate` and proves what it reports, and in what order.
- `Art.ART` is the tree object. Its `root` field is replaced on each write.
  Its methods hold the loops of `find`, `divergence` and `iterate`, and are
  proved against `ArtSpec`, `Iteration` and `Get`.

Conventions of the model:

- Bytes are the subset type `Types.byte` (0..255).
- Go's nil child and nil value are `Option`'s `None`.
- `Comparable.EqualTo` is Dafny equality on a `V(==)` type parameter.

One quirk of the source shapes the preconditions. Node4 and Node16 read a
zero key byte as a free slot, so:

- `setNext` of byte 0 into those layouts is not modelled;
- a key must not hold byte 0 except at position 0 (`ArtSpec.KeyOk`);
- position 0 is handled by the root, which is a Node256.

## Model

| member | source | states |
|---|---|---|
| Slots.SortSearchSorted | node.go:166-180 | on ascending keys, Go's `sort.Search` bisection finds exactly the first key at least `b` |
| Slots.SearchKeys | node.go:292-299 | `search` returns the first slot whose key is at least `b`, else the child count |
| Slots.ShiftIn | node.go:214-220 | shifting the slots after `p` up by one and writing `x` at `p` leaves the array equal to `x` inserted at `p`, the last element dropped |
| Slots.SearchSorted | edges16.go:46-53 | on a sorted layout, every key before the `search` position is smaller than `b` and the key at it is at least `b` |
| Slots.SearchPresent | edges4.go:50-57 | on a sorted layout, `search` of a stored byte lands on that byte's own slot |
| Slots.SortedInsert | edges16.go:30-44 | shifting an absent non-zero byte in at the `search` position keeps the layout sorted and adds exactly that byte to the map |
| Slots.PairsCard | edges4.go:80-82 | a layout of `n` distinct keys maps exactly `n` bytes, so `full` means four (sixteen) children |
| Slots.IndexBytePacked | edges4.go:26 | a first-occurrence scan over a packed layout finds exactly the child the map holds for `b`; the same scan is `bytes.IndexByte` at edges16.go:22 and the loop of `next4` at node.go:156-164 |
| Slots.IndexedOverwrite | edges48.go:27-36 | rewriting the slot of a stored byte keeps the index table valid and changes the map at that byte alone |
| Slots.IndexedAdd | edges48.go:27-36 | claiming slot `children` for an absent byte keeps the table valid and adds exactly that byte |
| Slots.SpreadIndexed | edges16.go:66-75 | the index table built from a packed layout (`keys[i]` names slot i + 1) is valid and holds the same map |
| Slots.IndexedCard | edges48.go:61-63 | an index table with `n` children maps exactly `n` bytes, so `full` means 48 children |
| Slots.DirectCard | edges256.go:41-43 | a 256-slot array maps at most 256 bytes: one slot per byte |
| Slots.FlattenMap | edges48.go:49-59 | moving every indexed child into slot `b` of a 256-slot array keeps the map |
| NodeEdges.NewEdgesEmpty | node.go:56-85 | a new edge set of each layout is valid and maps nothing |
| NodeEdges.NextAbs | node.go:143-190 | on a valid set, `next` of each layout returns exactly the map's child for `b` |
| NodeEdges.Next16Abs | node.go:166-180 | `next16` (bisection, then an equality check) returns exactly the map's child |
| NodeEdges.SetNext4Abs | node.go:192-204 | `setNext4` of a non-zero byte with room keeps the set valid, sets the map at `b` alone and counts a new byte |
| NodeEdges.SetNext16Abs | node.go:206-222 | the same for `setNext16`'s sorted insertion |
| NodeEdges.SetNextOrder | node_test.go:32-99 | into slots keyed "a", "c", `setNext4` appends "b" as the third key while `setNext16` inserts it between them, as the two tests expect |
| NodeEdges.SetNext48Abs | node.go:224-233 | the same for `setNext48`'s index table |
| NodeEdges.SetNext256Abs | node.go:235-240 | the same for `setNext256`, whose count is a `uint8` that wraps at 256 |
| NodeEdges.SetNextAbs | node.go:104-113 | the dispatch on `ntype` keeps the set valid and updates the map at `b` alone |
| NodeEdges.Upgrade4FromAbs | node.go:259-267 | `setNext16` of the four slots in turn yields a valid Node16 with the same map and four children |
| NodeEdges.UpgradeAbs | node.go:242-257 | upgrading a full set yields the next layout with the same map and the same count |
| NodeEdges.FullAbs | node.go:301-312 | a Node4, Node16 or Node48 set is full exactly when it maps four, sixteen or 48 bytes; a Node256 set is never full |
| NodeEdges.ValidCanSet | node.go:104-113 | a valid set with room for `b` meets what each layout's `setNext` needs |
| Nodes.Room | node.go:96-102 | the set `swapNext` writes into (a copy, or an upgrade when full and `b` is new) is valid, has the same map and has room for `b` |
| Nodes.RoomSetNext | node.go:118-141 | writing `b` into that set keeps it valid and updates the map at `b` alone |
| Nodes.NewNodeEmpty | node.go:31-50 | `newNode` gives a valid node of the requested layout with no children |
| Nodes.SetNextInserts | node.go:118-141 | `setNext` keeps the node's prefix and value, keeps its edges valid, and changes its child under `b` alone |
| Nodes.SetNextValid | node.go:118-141 | `setNext` of a valid child into a valid node gives a valid node |
| Nodes.SwapNextPublishes | node.go:87-116 | `swapNext` succeeds exactly when the child under `b` is `existing`; on failure the node is unchanged; on success the node keeps its prefix and value, its edge set stays valid, `b` maps to `next` and every other byte keeps its child |
| ArtSpec.Divergence | art.go:223-235 | `divergence` is the length of the longest common prefix: both agree before it and differ at it when both go on |
| ArtSpec.FindFrom | art.go:126-160 | `find` stops at a position inside the key, with a parent whose edge byte precedes it |
| ArtProofs.DispatchCases | art.go:206-220 | exactly one mutator applies: insert when no child, update when the prefix is consumed, otherwise one of the two splits |
| ArtProofs.InsertNodeStores | art.go:162-165 | `insertNode`'s new parent stores the key and keeps every other key below it |
| ArtProofs.UpdateNodeStores | art.go:167-174 | `updateNode`'s new parent stores the key and keeps every other key below it |
| ArtProofs.SplitTwoWayStores | art.go:176-191 | `splitTwoWay`'s new parent stores the key and keeps every other key below it |
| ArtProofs.SplitThreeWayStores | art.go:193-204 | `splitThreeWay`'s new parent stores the key and keeps every other key below it |
| ArtProofs.PublishStores | art.go:22-31 | whichever mutator the dispatch picks publishes, and its parent stores the key and keeps the rest |
| ArtProofs.GraftStores | art.go:16-44 | rebuilding the path from the root down to `find`'s parent carries that update up to the whole tree |
| ArtProofs.Descend | art.go:132-157 | one step of `find`'s loop continues the same search from the child |
| ArtProofs.InsertStores | art.go:16-44 | after `Insert` the tree is valid, holds the key's new value, and every other key keeps its value |
| ArtProofs.ReachedGet | art.go:126-160 | reading the node `find` reaches, when the key ends exactly on it, gives the key's value |
| ArtProofs.LookupGet | art.go:90-98 | `Lookup` (corrected, see Findings) returns exactly the key's value |
| ArtProofs.InsertThenLookup | art.go:16-44 | `Lookup` after `Insert` returns the new value for the key and the old answer for every other key |
| ArtProofs.InsertTwice | art.go:16-44 | inserting the same key twice leaves the second value and every other key as before |
| ArtProofs.NewRootEmpty | art.go:9-13 | `New` gives a valid root that holds no key |
| ArtProofs.SwapCas | art.go:47-87 | `Swap` (corrected) succeeds exactly when the key holds `expected`; on failure the tree is unchanged, on success it is `Insert`'s tree |
| ArtProofs.SwapAsWrittenPresent | art.go:47-87 | when the key is stored, `Swap` as written agrees with the compare-and-swap |
| ArtProofs.SwapAsWrittenIgnoresExpected | art.go:57-62 | `Swap` as written succeeds on an absent key with a non-nil `expected` |
| ArtProofs.SwapAsWrittenInnerNil | art.go:52-55 | `Swap` as written fails for a nil `old` on an absent key that ends at a value-less node, where the compare-and-swap succeeds |
| ArtProofs.LookupAsWrittenPrefix | art.go:90-98 | after inserting "test", `Lookup` as written returns its value for "t", which is not stored |
| Iteration.WalkStep | iterator.go:27-40 | the traversal visits a child under parent key + byte + prefix, and the child is valid |
| Iteration.WalkKeys | iterator.go:21-40 | every key the loop reports from byte `i` extends the parent key with a byte at least `i` |
| Iteration.WalkAscending | iterator.go:21-40 | the traversal reports its keys in strictly ascending byte order |
| Iteration.WalkReports | iterator.go:16-42 | the traversal below a node reports `(k, v)` exactly when `k` strictly extends the node's key and the node holds `v` for the rest |
| Iteration.FindBeyond | art.go:126-160 | every key that extends the key given to `find` is reached from the node `find` stops at |
| Iteration.IterateReports | iterator.go:4-14 | `Iterate` (corrected) reports `(k, v)` exactly when `k` strictly extends `from` and the tree holds `v` for `k` |
| Iteration.IterateAscending | iterator.go:4-14 | `Iterate` reports its keys in strictly ascending order |
| Iteration.SplitReports | iterator.go:4-14 | when `from` ends inside a node's prefix, that node's value and subtree under the node's full key are exactly the keys beyond `from` |
| Iteration.IterateAsWrittenExact | iterator.go:4-14 | when `find` reaches the node `from` stands for, `Iterate` as written reports exactly the stored keys strictly extending `from`, in ascending order |
| Iteration.IterateAsWrittenSplit | iterator.go:4-14 | from a key that ends inside a prefix, `Iterate` as written reports a key the tree does not hold |
| Iteration.IterateAsWrittenDiverged | iterator.go:4-14 | from a key that leaves a prefix before it ends, `Iterate` as written reports a key the tree does not hold, where the corrected one reports nothing |
| Iteration.IterateAsWrittenNil | iterator.go:4-17 | from a key with no path in the tree, `Iterate` as written dereferences the nil node `find` returns, where the corrected one reports nothing |
| Art.Divergence | art.go:223-235 | the loop returns `ArtSpec.Divergence`, the common-prefix length |
| Art.ART.New | art.go:9-13 | the new tree is valid and holds no key |
| Art.ART.Find | art.go:126-160 | the loop returns what `ArtSpec.Find` does, a located result |
| Art.ART.Insert | art.go:16-44 | afterwards the key holds the value and every other key keeps its value |
| Art.ART.Swap | art.go:47-87 | (corrected, see Findings) succeeds exactly when the key holds `expected`; the tree is unchanged on failure and updated at the key alone on success |
| Art.ART.Lookup | art.go:90-98 | (corrected, see Findings) returns exactly the key's value |
| Art.ART.Iterate | iterator.go:4-14 | (corrected, see Findings) returns exactly the stored keys strictly extending `from`, in ascending order |
| Art.ART.Resume | iterator.go:4-14 | (corrected, see Findings) what is reported from the node `find` reached equals `Iteration.Resume` |
| Art.ART.IterateNode | iterator.go:16-42 | the 256-step loop returns the traversal `Iteration.Walk` |
| Art.ART.VisitChild | iterator.go:27-40 | one child's report is its value under the built key, then its subtree |
| EdgeLayouts.Leaf.Next | edges.go:20-22 | the leaf set has no child for any byte |
| EdgeLayouts.Leaf.SetNext | edges.go:24-25 | `setNext` on a leaf changes nothing: the map stays empty |
| EdgeLayouts.Leaf.Upgrade | edges.go:31-33 | `upgrade` of a leaf is a fresh, valid, empty `edges4` |
| EdgeLayouts.Edges4.constructor | edges4.go:11-13 | a new `edges4` is valid and maps nothing |
| EdgeLayouts.Edges4.Next | edges4.go:25-32 | `next` returns exactly the map's child for `b` |
| EdgeLayouts.Edges4.FullHolds | edges4.go:80-82 | `full` holds exactly when four bytes are mapped |
| EdgeLayouts.Edges4.Search | edges4.go:50-57 | `search` returns the sorted insertion point of a non-zero byte |
| EdgeLayouts.Edges4.SetNext | edges4.go:34-48 | `setNext` keeps the layout sorted, sets the map at `b` alone and counts a new byte |
| EdgeLayouts.Edges4.Copy | edges4.go:59-68 | `copy` is a fresh object with equal arrays, count and map |
| EdgeLayouts.Edges4.Upgrade | edges4.go:70-78 | `upgrade` of a full set is a valid `edges16` with the same map and count |
| EdgeLayouts.Edges16.constructor | edges16.go:13-15 | a new `edges16` is valid and maps nothing |
| EdgeLayouts.Edges16.Next | edges16.go:21-28 | `next` returns exactly the map's child for `b` |
| EdgeLayouts.Edges16.FullHolds | edges16.go:77-79 | `full` holds exactly when sixteen bytes are mapped |
| EdgeLayouts.Edges16.Search | edges16.go:46-53 | `search` returns the sorted insertion point of a non-zero byte |
| EdgeLayouts.Edges16.SetNext | edges16.go:30-44 | `setNext` keeps the layout sorted, sets the map at `b` alone and counts a new byte |
| EdgeLayouts.Edges16.Copy | edges16.go:55-64 | `copy` is a fresh object with equal arrays, count and map |
| EdgeLayouts.Edges16.Spread48 | edges16.go:69-72 | the loop writes index entry `keys[i]` as i + 1 and slot i as child i |
| EdgeLayouts.Edges16.UpgradeAsWritten | edges16.go:66-75 | `upgrade` as written leaves the new count at 0, so a non-empty result breaks the `edges48` invariant |
| EdgeLayouts.Edges16.Upgrade | edges16.go:66-75 | `upgrade` with the count carried over is a valid `edges48` with the same map and count |
| EdgeLayouts.UpgradeAsWrittenClobbers | edges48.go:27-36 | after `upgrade` as written, `setNext` of a new byte takes slot 0, so an old byte now reads the new child |
| EdgeLayouts.Edges48.constructor | edges48.go:9-11 | a new `edges48` is valid and maps nothing |
| EdgeLayouts.Edges48.Next | edges48.go:17-25 | `next` returns exactly the map's child for `b` |
| EdgeLayouts.Edges48.SetNext | edges48.go:27-36 | `setNext` keeps the index table valid, sets the map at `b` alone and counts a new byte |
| EdgeLayouts.Edges48.FullHolds | edges48.go:61-63 | `full` holds exactly when 48 bytes are mapped |
| EdgeLayouts.Edges48.Copy | edges48.go:38-47 | `copy` is a fresh object with equal arrays, count and map |
| EdgeLayouts.Edges48.Upgrade | edges48.go:49-59 | `upgrade` is a valid `edges256` with the same map |
| EdgeLayouts.Edges256.constructor | edges256.go:8-10 | a new `edges256` is valid and maps nothing |
| EdgeLayouts.Edges256.Next | edges256.go:16-18 | `next` returns exactly the map's child for `b` |
| EdgeLayouts.Edges256.SetNext | edges256.go:20-25 | `setNext` sets the map at `b` alone and counts a new byte in a wrapping `uint8` |
| EdgeLayouts.Edges256.FullHolds | edges256.go:41-43 | `full` never holds, and the slots map at most 256 bytes |
| EdgeLayouts.Edges256.Copy | edges256.go:27-35 | `copy` is a fresh object with equal slots, count and map |
| EdgeLayouts.Edges256.Upgrade | edges256.go:37-39 | `upgrade` returns the receiver itself |
| EdgeStruct.Edges.Blank | node.go:56-85 | a fresh struct of the given layout with zeroed slices and no children |
| EdgeStruct.Edges.NewEdges | node.go:56-85 | `newEdges4/16/48/256` give the value `NodeEdges.NewEdges`, which is valid and maps nothing |
| EdgeStruct.Edges.Next4 | node.go:156-164 | the loop returns `NodeEdges.Next4`, the child of the first slot keyed `b` |
| EdgeStruct.Edges.Next | node.go:143-190 | the dispatch returns `NodeEdges.Next`, which on a valid set is the map's child for `b` |
| EdgeStruct.Edges.SetNext4 | node.go:192-204 | the struct becomes `NodeEdges.SetNext4` of its old value, its arrays kept |
| EdgeStruct.Edges.SetNext16 | node.go:206-222 | the struct becomes `NodeEdges.SetNext16` of its old value, its arrays kept |
| EdgeStruct.Edges.SetNext48 | node.go:224-233 | the struct becomes `NodeEdges.SetNext48` of its old value, its arrays kept |
| EdgeStruct.Edges.SetNext256 | node.go:235-240 | the struct becomes `NodeEdges.SetNext256` of its old value, its arrays kept |
| EdgeStruct.Edges.SetNextByType | node.go:129-138 | the dispatch on `ntype` makes the struct `NodeEdges.SetNext` of its old value |
| EdgeStruct.Edges.Upgrade4 | node.go:259-267 | the loop builds exactly `NodeEdges.Upgrade4` of the struct |
| EdgeStruct.Edges.Upgrade16 | node.go:269-278 | the loop builds exactly `NodeEdges.Upgrade16` of the struct |
| EdgeStruct.Edges.Upgrade48 | node.go:280-290 | the loop builds exactly `NodeEdges.Upgrade48` of the struct |
| EdgeStruct.Edges.Upgrade | node.go:242-257 | the result is `NodeEdges.Upgrade`; on a full valid set it is valid with the same map and count |
| EdgeStruct.Edges.Copy | node.go:314-326 | a fresh struct with the same value |
| EdgeStruct.Edges.CopyOrUpgrade | node.go:96-102 | a fresh struct holding `Nodes.Room`, the set `swapNext` writes into |
| EdgeStruct.Edges.SwapNext | node.go:87-116 | succeeds exactly when the child under `b` is `existing`; on success a fresh struct maps `b` to `next` and keeps every other byte |
| EdgeStruct.Edges.MakeRoom | node.go:121-127 | the struct becomes `Nodes.Room` of its old value |
| EdgeStruct.Edges.SetNext | node.go:118-141 | the struct, upgraded if needed, maps `b` to `next` and keeps every other byte |

## Left out

- Concurrency. The compare-and-swap of `swapNext` and `atomic.LoadPointer` are modelled as one sequential step. In a sequential run the first publish always succeeds, so the retry loops of `Insert` and `Swap` (art.go:21-43, 64-86) run once and are not modelled as loops.
- The in-place pointer writes of the tree. A published parent replaces the old one through `ArtSpec.Graft`, which rebuilds the path from the root as values. Sharing of unchanged subtrees between versions is not modelled.
- `Delete` (art.go:101-124). It does not compile as published: it reads `children` from the method value `getEdges` without calling it, and calls `current.mark()`, which no file defines. No behaviour is modelled for it.
- `print` (node.go:332-356). It only writes debug output.
- `getEdges` (node.go:328-330). It is the atomic load of a node's edge cell; the model reads the cell directly.
- The `ntype` method of each layout, and the `edges` interface's dispatch. `NodeLeaf` is not defined in the files that make up this model, so the leaf's layout tag is left out. Each layout is modelled as its own class.
- `newEdges4p` (edges4.go:15-19). It only returns a pointer to `newEdges4`'s value.
- `newNode` with a size other than the four layouts (node.go:31-50, `size` -1 used by `updateNode`). The model builds the new node directly with the old edge set.
- The `current.edges == nil` test in `iterate` (iterator.go:17-19). Every modelled node has an edge set, so the test never fires.
- Go's callback `fn` in `Iterate`. The model returns the sequence of calls instead.
- EdgeLayouts.Edges4.SetNext, EdgeLayouts.Edges16.SetNext, EdgeLayouts.Edges4.Search, EdgeLayouts.Edges16.Search: they require `b != 0`, because a zero key byte is indistinguishable from a free slot in these layouts. The same holds for NodeEdges.SetNext4Abs, NodeEdges.SetNext16Abs, NodeEdges.SetNextAbs, Nodes.SetNextInserts, Nodes.RoomSetNext, Slots.SearchSorted and Slots.SortedInsert. Nodes.SwapNextPublishes, EdgeStruct.Edges.SwapNext and EdgeStruct.Edges.SetNext state their map `ensures` only for a non-zero byte or a byte already present in a Node4 or Node16 set.
- ArtSpec.KeyOk: keys with byte 0 after position 0 are not modelled, for the same reason. Nor is the empty key, on which `find` indexes `key[0]`.
- EdgeLayouts.Edges4.Upgrade: requires a full set, the only state in which a caller upgrades.
- EdgeLayouts.Edges48.Upgrade: the new `edges256` count is left at 0, as edges48.go:49-59 writes it. `edges256` never reads its count, so the map is unaffected.
- `Comparable.EqualTo` (art.go:59). The model compares values with Dafny's `==` on `V`.
- The pointer test `cn != existing` of `swapNext` (node.go:92). The model compares node values structurally, so two distinct nodes with equal contents count as the same child.
- A nil `Comparable` stored as a value. `Insert` and `Swap` store `Some(value)`, so a stored nil, which `Lookup` could not tell from an absent key, is not modelled.
- Aliasing of prefixes. `insertNode` and the splits (art.go:163, 180) store sub-slices of the caller's key as prefixes, so a caller that later reuses its key buffer changes the tree. The model copies keys as values.

## Findings

| source | as written | input that shows it | evidently intended | confidence | as-written member | corrected member |
|---|---|---|---|---|---|---|
| art.go:90-98 | `Lookup` returns the found node's value when the key is used up, even if the key ended inside that node's prefix | tree holding "test" → v; `Lookup("t")` returns v | return nil unless the whole prefix was matched (`dv >= len(prefix)`) | not executed | ArtProofs.LookupAsWrittenPrefix | ArtProofs.LookupGet |
| art.go:53-62 | `Swap` checks `old` against the value of whatever node `find` returned, and skips the check when `find` returned none, so on an absent key a non-nil `old` can go on to insert | empty tree; `Swap([1], a, b)` succeeds | succeed only when the key currently holds `old` (nil for absent) | not executed | ArtProofs.SwapAsWrittenIgnoresExpected | ArtProofs.SwapCas |
| edges16.go:66-75 | `upgrade` builds the `edges48` without copying `children`, which stays 0 | a full `edges16` upgraded, then `setNext` of a new byte: it takes slot 0 and an old byte now reads the new child | carry the count, as node.go:254 does | not executed | EdgeLayouts.UpgradeAsWrittenClobbers | EdgeLayouts.Edges16.Upgrade |
| art.go:52-55 | `Swap` refuses a nil `old` whenever the key ends exactly at a node, even a node that holds no value | tree holding "ab" → a below a value-less, prefix-less node under 'a', a node of the shape that inserting "ab" and then "ac" builds; `Swap("a", nil, x)` fails | succeed, since the key is absent as `old` says | not executed | ArtProofs.SwapAsWrittenInnerNil | ArtProofs.SwapCas |
| iterator.go:4-14 | when `from` ends inside the found node's prefix, `iterate` builds child keys from `from`, not from the node's full key | tree "ab" → a, "abc" → b; `Iterate("a")` reports key "ac" | build keys from `from` plus the rest of the node's prefix, and report the node's own value | not executed | Iteration.IterateAsWrittenSplit | Iteration.IterateReports |
| iterator.go:4-14 | when `from` leaves the found node's prefix before it ends, `iterate` still walks that node's subtree under `from` | tree "ab" → a, "abc" → b; `Iterate("ax")` reports key "axc" | report nothing, since no stored key extends `from` | not executed | Iteration.IterateAsWrittenDiverged | Iteration.IterateReports |
| iterator.go:7-17 | when `find` reaches no node, `iterate` is called with nil and reads `current.edges` | empty tree; `Iterate([1])` dereferences nil | report nothing | not executed | Iteration.IterateAsWrittenNil | Iteration.IterateReports |

The comment on `Iterate` (iterator.go:3) promises every key from a given point. The code visits only the subtree `find` reaches for `from`, and the model follows the code. The corrected `Lookup` and `Swap` differ from the code as written only on keys the tree does not hold; ArtProofs.SwapAsWrittenPresent proves that `Swap` agrees on stored keys. The corrected `Iterate` differs only for a `from` that does not end exactly at a node; Iteration.IterateAsWrittenExact proves that the code as written is right otherwise.
