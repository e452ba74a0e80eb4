# ufo: a disjoint-set store, modelled in Dafny

`ufo` is a small Rust union-find crate. A store keeps two things:

- `alloc`, an append-only arena of parent pointers, where `None` marks a root;
- `map`, from each inserted element to its slot (called `index` here).

Representatives (`RootRep`) are slot numbers. `find` walks the parent chain
to the root, with no path compression. `union` points one root at another.
`insert` is idempotent, and a fresh element gets a new root slot at the end of
the arena. `groups` buckets the elements by the root each one reaches.

The crate has the store twice:

- `src/disjoint_sets.rs` implements the `UnionFind` trait of `src/traits.rs`.
  Its `insert_union` and `insert2_union` are the trait's default methods,
  which sequence `insert` and `union`.
- `src/lib.rs` has the same code as inherent methods, except that its
  `insert_union` and `insert2_union` write the parent pointer themselves.

`src/tests.rs` has two clients of the trait: `unions`, which merges a list of
sets, and Kruskal's `mst`, together with `edges_by_weight`. It also has the
two scenarios `unions_works` and `mst_works`.

The model has one module per concern:

- `Partition` (partition.dfy): the reference meaning of a store, a label map. Every element maps to the element that names its class. `AddElem` and `Join` are the label-level `insert` and `union`. `IsPartition` says what a list of groups must be.
- `Forest` (forest.dfy): the parent-pointer arena. Acyclicity is witnessed by a ghost `rank` that strictly decreases from child to parent, so every walk terminates. A ghost `owner` records the element each slot was allocated for; it turns roots into labels.
- `Grouping` (grouping.dfy): the bucketing invariant of `groups`, and the arena bookkeeping of two consecutive inserts.
- `DisjointSets` (disjoint_sets.dfy): the class for `src/disjoint_sets.rs`, together with the trait's default methods.
- `Lib` (lib.dfy): the class for `src/lib.rs`.
- `Clients` (clients.dfy): `unions`, `edges_by_weight` and `mst` as methods over the `DisjointSets` class. Each is proved against a functional reference: `RefUnions`, `SortByWeight(AllEdges(...))` and `KruskalRef`.
- `UnionsWorks` (unions_works.dfy) and `MstWorks` (mst_works.dfy): the two test scenarios, proved about the model.

The store's methods state the new arena, the new index and the new labels
(`Labels()`); the ghost ranking is only required to stay valid. The client
methods state the new labels, and the client proofs build on those.

## Model

| member | source | states |
|---|---|---|
| DisjointSets.DisjointSets.Scoped | src/disjoint_sets.rs:62-68 | the store handed to the callback is valid, with an empty arena and an empty index |
| DisjointSets.DisjointSets.Find | src/disjoint_sets.rs:25-38 | `None` exactly when the element was never inserted; otherwise the returned slot is a root, and it is the root the parent walk from the element's slot reaches; nothing is modified |
| DisjointSets.DisjointSets.Union | src/disjoint_sets.rs:40-43 | for two distinct current roots: only `alloc[rep2]` changes, to `Some(rep1)`; `rep1` is returned; the store stays acyclic; every walk that ended at `rep2` now ends at `rep1`, and every other walk is unchanged; the class of `rep2` is merged into that of `rep1` |
| DisjointSets.DisjointSets.Insert | src/disjoint_sets.rs:45-59 | a present element leaves arena and index unchanged and yields its current root (the result of `find`); a fresh element appends exactly one `None` slot and is mapped to the old length; no other element's slot or root moves; the labels gain the element as a singleton class if it was fresh |
| DisjointSets.DisjointSets.InsertUnion | src/traits.rs:7-10 | `insert(e)` then `union(rep, …)`: returns `rep`; only the slot of `e`'s old root changes, to `Some(rep)`; afterwards `e`'s walk ends at `rep`; `e`'s class joins `rep`'s, which keeps its label |
| DisjointSets.DisjointSets.Insert2Union | src/traits.rs:12-16 | inserts `e1` before `e2` (slot numbers as the order implies), then joins the two roots with `e1`'s as parent and returns it; afterwards both walks end at that root; the labels are the reference `Join` of the two classes |
| DisjointSets.DisjointSets.Groups | src/disjoint_sets.rs:71-83 | the groups contain every inserted element exactly once, no empty group and nothing else; two elements share a group exactly when their parent walks end at the same root |
| Lib.DisjointSets.New | src/lib.rs:30-36 | the store handed to the callback is valid, with an empty arena and an empty index |
| Lib.DisjointSets.Find | src/lib.rs:38-52 | `None` exactly when the element was never inserted; otherwise the root the parent walk reaches; nothing is modified |
| Lib.DisjointSets.Union | src/lib.rs:54-57 | as for the trait implementation: only `alloc[rep2] := Some(rep1)`, `rep1` returned, the store stays acyclic, and `rep2`'s class is merged into `rep1`'s |
| Lib.DisjointSets.InsertUnion | src/lib.rs:59-65 | the inlined parent write gives exactly the store the trait's `insert_union` gives: `rep` is returned, `e`'s walk ends at `rep`, and `e`'s class joins `rep`'s |
| Lib.DisjointSets.InsertBoth | src/lib.rs:68-69 | the two inserts of `insert2_union`: both elements present, with slots appended in order; each representative is its element's root, and the two differ |
| Lib.DisjointSets.Insert2Union | src/lib.rs:67-72 | with the parent write inlined: returns `e1`'s root, which both elements' walks then reach; the arena differs from the old one by the appended slots and the one write; the labels are the reference `Join` |
| Lib.DisjointSets.Insert | src/lib.rs:74-88 | a present element changes nothing and yields its root; a fresh element appends one root slot at the old length; no other walk moves |
| Lib.DisjointSets.Groups | src/lib.rs:90-102 | every inserted element in exactly one non-empty group; two elements share a group exactly when their walks end at the same root |
| Lib.InsertTwice | src/lib.rs:74-77 | inserting an element twice returns equal representatives; only the first call can append a slot |
| Forest.Root | src/disjoint_sets.rs:30-33 | the parent walk from any slot of a well-ranked arena stops, and it stops at a root |
| Forest.InsertFresh | src/disjoint_sets.rs:50-53 | appending a root slot for a fresh element keeps the store well-formed, moves no existing walk, and adds the element as its own class |
| Forest.LinkStore | src/disjoint_sets.rs:41 | pointing a root at a different root keeps the arena acyclic under a re-ranking, sends exactly the walks that ended at the child root to the parent root, and merges the two classes |
| Forest.LabelsMatchClasses | src/disjoint_sets.rs:74-79 | two elements carry the same label exactly when their walks end at the same root, and each root's owner is labelled by itself |
| Forest.LabelsOfRoots | src/disjoint_sets.rs:25-37 | an element's label is the owner of the root its walk reaches, and two elements reach the same root exactly when their labels agree |
| Grouping.SweepStep | src/disjoint_sets.rs:74-79 | one iteration of the `groups` loop: the element leaves the remaining set and joins the bucket of its root, and the bucketing invariant is kept |
| Grouping.BucketInsert | src/disjoint_sets.rs:79 | appending an element to the bucket of its root keeps every bucket non-empty, duplicate-free and holding only its own class |
| Grouping.BucketValues | src/disjoint_sets.rs:82 | handing out the buckets as groups yields a partition by root |
| Grouping.PartitionOfBuckets | src/disjoint_sets.rs:82 | buckets listed once each, every element in the bucket of its class, form the partition |
| Grouping.ListedStep | src/disjoint_sets.rs:82 | listing one more bucket keeps the listed keys distinct and accounted for |
| Grouping.TwoInserts | src/traits.rs:13-14 | after inserting `e1` and then `e2`, both are keys, old slots are unchanged, the fresh slots are appended in that order |
| Partition.AddElem | src/disjoint_sets.rs:45-59 | label-level `insert`: the key set gains the element, no old label changes, and a fresh element labels itself |
| Partition.JoinMergesExactly | src/disjoint_sets.rs:40-43 | label-level `union`: afterwards the two elements share the first's label, and two elements share a label exactly when they did before or each was in one of the two merged classes |
| Partition.JoinTransitive | src/traits.rs:12-16 | joining `a` with `b` and then `b` with `c` puts `a` and `c` in one class |
| Partition.PartitionTransfer | src/disjoint_sets.rs:71-83 | a partition by one labelling is a partition by any labelling with the same keys and the same equalities |
| Partition.SameGroupSameLabel | src/disjoint_sets.rs:71-83 | in a partition, two elements share a group exactly when they share a label |
| Partition.GroupIsClass | src/disjoint_sets.rs:71-83 | each group is exactly the class of its first element |
| Partition.NoDupMultiset | src/tests.rs:30-33 | a duplicate-free sequence with exactly the elements of a set has that set's multiset, which is what the test's per-group sort compares |
| Clients.LinkAll | src/tests.rs:9-11 | the labels after the inner loop have exactly the old keys plus the linked elements |
| Clients.AddSet | src/tests.rs:7-12 | the labels after one set have exactly the old keys plus the set's elements |
| Clients.RefUnionsKeys | src/tests.rs:4-17 | the reference labelling of `unions` has exactly the elements of the sets as keys |
| Clients.LinksApartAt | src/tests.rs:9-10 | when the inner loop links no root to itself, its `j`-th step meets an element outside `r`'s class |
| Clients.LinkAllStep | src/tests.rs:9-10 | the inner loop's labels after `j + 1` elements are one `Join` beyond those after `j` |
| Clients.InsertUnionStep | src/traits.rs:7-10 | what `insert_union(rep, e)` does to the labels, with `rep` the root of `r`, is the reference join of `e` into `r`'s class, and `r` keeps its label |
| Clients.RefUnionsStep | src/tests.rs:6-13 | the reference labels after one more set are `AddSet` of those before |
| Clients.Link | src/tests.rs:10 | one `insert_union(rep, e)` of `unions` on the store: the representative stays a root, and the labels become the reference `Join(AddElem(old, e), r, e)` |
| Clients.LinkNext | src/tests.rs:9-11 | one iteration of the inner loop advances the store from `es[..j]` linked to `es[..j + 1]` linked |
| Clients.LinkAllTo | src/tests.rs:9-11 | the inner loop's store has the labels `LinkAll(old, r, es)` |
| Clients.AddSetTo | src/tests.rs:7-12 | popping the last element, inserting it and linking the rest gives the labels `AddSet(old, s)` |
| Clients.Unions | src/tests.rs:4-17 | for inputs on which the Rust code terminates, the result partitions exactly the elements of the sets, two sharing a group exactly when the reference `RefUnions` labels them alike |
| Clients.CoarserTransitive | src/tests.rs:6-13 | merging classes in two stages is merging classes |
| Clients.LinkAllJoins | src/tests.rs:9-11 | the inner loop puts every element of the set in `r`'s class and separates no class |
| Clients.AddSetJoins | src/tests.rs:7-12 | one non-empty set ends in the class of its popped last element, and no class is separated |
| Clients.RefUnionsPrefix | src/tests.rs:6-13 | later sets only merge classes: the labels after a prefix of the sets are refined by the final ones |
| Clients.UnionsJoinsEachSet | src/tests.rs:4-17 | every element of a non-empty input set ends in the same class as that set's popped last element |
| Clients.JoinRespects | src/tests.rs:10 | joining two elements that lie on the same side of a set `s` keeps every class wholly inside or wholly outside `s` |
| Clients.LinkAllRespects | src/tests.rs:9-11 | the inner loop keeps every class on one side of `s` when all linked elements are on `r`'s side |
| Clients.AddSetRespects | src/tests.rs:7-12 | one input set with no elements on both sides of `s` keeps every class on one side of `s` |
| Clients.RefUnionsRespects | src/tests.rs:6-13 | if no input set straddles `s`, no final class straddles `s` |
| Clients.UnionsSeparates | src/tests.rs:4-17 | the converse of `UnionsJoinsEachSet`: if no input set has elements on both sides of `s`, an element inside `s` and one outside it end in different classes, so `unions` joins only what the sets force |
| Clients.NonEmpty | src/tests.rs:7 | a set of the input is kept exactly when it is non-empty, nothing else is kept, and the result is no longer than the input |
| Clients.NonEmptySnoc | src/tests.rs:7 | the kept sets stay in input order: a non-empty set appended to the input is kept last, an empty one is dropped |
| Clients.UnionsIgnoresEmptySets | src/tests.rs:7 | dropping every empty set from the input leaves the reference result unchanged |
| Clients.RowEdges | src/tests.rs:82-84 | one adjacency list yields one `(src, dst, weight)` per entry, in order |
| Clients.AllEdgesMembers | src/tests.rs:81-85 | the collected triples are exactly the adjacency-list entries, each with its source node |
| Clients.InsertByWeightPerm | src/tests.rs:87 | one insertion adds exactly that edge |
| Clients.OfWeightSnoc | src/tests.rs:87 | selecting the edges of one weight distributes over appending an edge |
| Clients.InsertByWeightStable | src/tests.rs:87 | one insertion appends the edge to those of its weight and reorders no others |
| Clients.InsertByWeightSorted | src/tests.rs:87 | inserting into a weight-sorted sequence keeps it sorted |
| Clients.InsertByWeightAt | src/tests.rs:87 | the insertion position is after every edge no heavier and before every heavier one |
| Clients.SortByWeightCorrect | src/tests.rs:87 | the sort is by non-decreasing weight, is a permutation, and keeps the order of equal-weight edges (`sort_by_key` is stable) |
| Clients.EdgesByWeight | src/tests.rs:78-89 | the nested loops collect `AllEdges(graph)`, and the result is its stable sort by weight |
| Clients.KruskalStepJoins | src/tests.rs:94-101 | one edge adds both endpoints, puts them in one class, and separates no class |
| Clients.KruskalRefStep | src/tests.rs:94-101 | the reference state after `i + 1` edges is one step beyond that after `i` |
| Clients.KruskalNodes | src/tests.rs:94-96 | the nodes seen are exactly the endpoints of the edges |
| Clients.KruskalConnects | src/tests.rs:94-101 | after the loop, the two endpoints of every edge are in one class |
| Clients.KruskalKeepsEdges | src/tests.rs:97-99 | every kept pair is `(src, dst)` of one of the edges |
| Clients.AddElemCanonical | src/tests.rs:95-96 | an insert keeps every label a member of its own class, labelled by itself |
| Clients.AddFreshLabels | src/tests.rs:95-96 | a fresh node adds exactly itself to the labels in use |
| Clients.AddFreshValues | src/tests.rs:95-96 | a fresh node with a fresh label adds one node and one class |
| Clients.AddElemCount | src/tests.rs:95-96 | an insert changes the node count and the class count by the same amount |
| Clients.JoinCount | src/tests.rs:97-98 | joining two different classes removes exactly one class and no node |
| Clients.KruskalForest | src/tests.rs:91-105 | every label names a member of its own class, and the number of kept edges plus the number of classes is the number of nodes seen |
| Clients.MstEdge | src/tests.rs:95-100 | one loop pass on the store keeps the edge exactly when its endpoints were in different classes, and then joins the classes; otherwise it only adds the endpoints |
| Clients.Mst | src/tests.rs:91-105 | the result is exactly the edges the reference Kruskal loop keeps over `SortByWeight(AllEdges(graph))` |
| UnionsWorks.JoinFresh | src/tests.rs:10 | `insert_union` of a fresh element just gives it `r`'s label |
| UnionsWorks.LinkAllFresh | src/tests.rs:9-11 | linking distinct fresh elements gives each `r`'s label and changes no other label |
| UnionsWorks.LinkAllFreshApart | src/tests.rs:9-11 | linking distinct fresh elements never links a root to itself |
| UnionsWorks.AddSetFresh | src/tests.rs:7-12 | a set of distinct fresh elements becomes one new class labelled by its last element |
| UnionsWorks.AddSetPair | src/tests.rs:7-10 | a two-element set `[a, b]` joins `a`'s class into `b`'s, and it links no root to itself exactly when the two classes differ |
| UnionsWorks.Step1 | src/tests.rs:22 | after `[A, B, C, D]` the keys are exactly `A..D`, all labelled `D`, and the set links no root to itself |
| UnionsWorks.Step2 | src/tests.rs:23 | after `[E, F, G]` the keys are `A..G`, with `E..G` labelled `G` and the rest `D`, and the set links no root to itself |
| UnionsWorks.Step3 | src/tests.rs:24 | after `[B, F]` all of `A..G` are labelled `G`, and the set links two different roots |
| UnionsWorks.Step4 | src/tests.rs:25 | after `[H, I, J, K]` the keys are `A..K`, with `H..K` labelled `K` and the rest `G` |
| UnionsWorks.Step5 | src/tests.rs:53 | after `[G, H]` all of `A..K` are labelled `K`, and the set links two different roots |
| UnionsWorks.RefUnionsSnoc | src/tests.rs:6-13 | the reference result of one more set is `AddSet` of the previous one |
| UnionsWorks.RefUnionsFour | src/tests.rs:21-27 | the reference result of four sets unfolds set by set |
| UnionsWorks.Upto2 | src/tests.rs:22-23 | the reference labels after the first two sets |
| UnionsWorks.Upto3 | src/tests.rs:22-24 | the reference labels after the first three sets |
| UnionsWorks.Upto4 | src/tests.rs:22-25 | the reference labels after all four sets |
| UnionsWorks.InputAPrefixes | src/tests.rs:21-27 | the first input's prefixes unfold to the four steps |
| UnionsWorks.InputAApart | src/tests.rs:21-27 | on the first input `unions` links no root to itself, so it terminates |
| UnionsWorks.InputALabels | src/tests.rs:21-28 | on the first input the reference labels are `A` to `G` under one label, and `H` to `K` under another |
| UnionsWorks.UnionsApartSnoc | src/tests.rs:48-54 | appending a set that links no root to itself keeps the input acceptable |
| UnionsWorks.InputBApart | src/tests.rs:48-54 | on the second input `unions` terminates too |
| UnionsWorks.InputBLabels | src/tests.rs:48-55 | on the second input every element gets one label |
| UnionsWorks.Halves | src/tests.rs:38-39 | the two expected groups are duplicate-free and disjoint |
| UnionsWorks.GroupOf | src/tests.rs:35-45 | every element of the labelling lies in some group |
| UnionsWorks.GroupOfClass | src/tests.rs:35-45 | a group headed by a member of a class holds exactly that class's elements |
| UnionsWorks.OneClass | src/tests.rs:62-65 | a partition of one class has exactly one group, with the class's elements |
| UnionsWorks.AtMostTwoGroups | src/tests.rs:35-45 | a partition of two classes has at most two groups |
| UnionsWorks.GroupsOfTwoClasses | src/tests.rs:35-45 | two groups headed by members of two classes hold exactly those classes |
| UnionsWorks.TwoClasses | src/tests.rs:35-45 | a partition of two classes has exactly two groups, the two classes in either order |
| UnionsWorks.GroupsAfter4 | src/tests.rs:35-45 | after the first input the groups are `{H..K}` and `{A..G}`, in either order |
| UnionsWorks.GroupsAfter5 | src/tests.rs:62-65 | after the second input there is a single group `{A..K}` |
| UnionsWorks.UnionsWorksA | src/tests.rs:20-46 | `unions` of `[A,B,C,D]`, `[E,F,G]`, `[B,F]`, `[H,I,J,K]` returns exactly two groups, which hold `H..K` and `A..G` in either order |
| UnionsWorks.UnionsWorksB | src/tests.rs:48-65 | with `[G,H]` added, `unions` returns one group holding `A..K` |
| MstWorks.AllEdgesStep | src/tests.rs:81-85 | the edges of one more node follow those of the nodes before it |
| MstWorks.ListedStep | src/tests.rs:121-140 | node `k` lists the test graph's edges `EdgesBefore(k)` to `EdgesBefore(k + 1)` |
| MstWorks.ListedPrefix | src/tests.rs:121-140 | the edges of the first `k` nodes are the first `EdgesBefore(k)` listed edges |
| MstWorks.Listed | src/tests.rs:81-85 | the test graph's edges, node by node, are the twelve listed triples |
| MstWorks.SortByWeightStep | src/tests.rs:87 | the sort of one more edge inserts it into the sort of the others |
| MstWorks.SortedSteps0 | src/tests.rs:87 | listed edges 0 to 2 are inserted at the expected positions |
| MstWorks.SortedSteps3 | src/tests.rs:87 | listed edges 3 to 5 are inserted at the expected positions |
| MstWorks.SortedSteps6 | src/tests.rs:87 | listed edges 6 to 8 are inserted at the expected positions |
| MstWorks.SortedSteps9 | src/tests.rs:87 | listed edges 9 to 11 are inserted at the expected positions |
| MstWorks.SortedPrefix | src/tests.rs:87 | the sort of each prefix of the listed edges is the tabulated stage |
| MstWorks.Sorted | src/tests.rs:87 | the sorted edges are those of weights 1 to 12 in order |
| MstWorks.KruskalSteps0 | src/tests.rs:94-101 | Kruskal steps 0 and 1 on the sorted edges |
| MstWorks.KruskalSteps2 | src/tests.rs:94-101 | Kruskal steps 2 and 3 on the sorted edges |
| MstWorks.KruskalSteps4 | src/tests.rs:94-101 | Kruskal steps 4 and 5 on the sorted edges |
| MstWorks.KruskalSteps6 | src/tests.rs:94-101 | Kruskal steps 6 and 7 on the sorted edges |
| MstWorks.KruskalSteps8 | src/tests.rs:94-101 | Kruskal steps 8 and 9 on the sorted edges |
| MstWorks.KruskalSteps10 | src/tests.rs:94-101 | Kruskal steps 10 and 11 on the sorted edges |
| MstWorks.KruskalPrefix | src/tests.rs:94-101 | the reference state after each prefix of the sorted edges is the tabulated stage |
| MstWorks.MstWorksKept | src/tests.rs:107-146 | the reference Kruskal loop on the test graph keeps exactly `(1,4),(4,5),(3,6),(2,5),(0,1),(3,4),(6,7),(7,8)` |
| MstWorks.MstWorksResult | src/tests.rs:142-146 | `mst` of the test graph returns exactly that list, in that order |

## Left out

- The `'id` lifetime brand on stores and `RootRep`s is left out. It is a compile-time guarantee with no run-time content. Representatives are plain slot numbers, and every operation that takes one requires it to be a current root of the same store.
- The scope callbacks of `scoped` and `new` are modelled as constructors that produce the empty store. The clients run the callback's body on that store. Returning the callback's result is then ordinary method return.
- `groups` consuming the store is not modelled: the store merely stays in place.
- The order of `HashMap` iteration is not modelled. The order of the groups, and of the elements within a group, is left open: any order satisfies `IsPartition`.
- The `Borrow<Q>` generality of `find` in `src/lib.rs` is not modelled. The query is an element.
- Path compression is absent from the crate (a to-do note), so it is absent from the model. Running time is not modelled.
- `usize` is modelled as `nat`. Overflowing the arena or the node numbers is not considered.
- `sort_by_key` is modelled as a stable insertion sort (`SortByWeight`). Its result is proved sorted by weight, a permutation of the input, and stable.
- The `#[test]` and `assert!` harness is not modelled. The scenarios are stated as methods and lemmas whose `ensures` are the assertions.
- DisjointSets.DisjointSets.Union: requires two distinct current roots. `union(r, r)` writes `Some(r)` into slot `r`, and every later walk through `r` never stops. The model does not follow the code into that hang. So calling `union` on one class does not leave the groups unchanged: it makes `r` its own parent, and the model does not offer that call. The same applies to `Lib.DisjointSets.Union`.
- DisjointSets.DisjointSets.InsertUnion: requires that `e`'s root, if present, is not `rep`, for the same reason. The same applies to `Lib.DisjointSets.InsertUnion`.
- DisjointSets.DisjointSets.Insert2Union: requires that the two elements be distinct and not already in one class, for the same reason. The same applies to `Lib.DisjointSets.Insert2Union`.
- Clients.Unions: requires `UnionsApart(sets)`, the inputs on which the Rust code terminates. A set that repeats an element, or whose elements an earlier set already joined, makes `unions` link a root to itself.
- Lib.DisjointSets.Rerank: ghost bookkeeping that rebuilds the ranking after the inlined parent write of `src/lib.rs`. It has no counterpart in the Rust code.
- Clients.Mst: the model does not prove that the edges `mst` keeps have minimum weight. The crate states only the scenario's expected output. What is proved is that `mst` is the reference Kruskal loop, that every kept edge merged two classes, so the kept edges plus the classes number the nodes seen (`KruskalForest`), and that the endpoints of every edge end in one class (`KruskalConnects`).
- Clients.KruskalForest: states a count, not acyclicity as a graph property. It does not prove that the classes of the labels are the connected components of the kept edges, which is what would turn the count into "the kept edges contain no cycle".
- UnionsWorks.UnionsWorksA: stated for any eleven distinct elements in place of the letters `A` to `K`, and by the multiset of each group instead of the sorted group. For duplicate-free groups the two say the same. The same applies to `UnionsWorks.UnionsWorksB`.
