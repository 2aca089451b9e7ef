# Arena-backed splay tree

This project models the splay tree of `src/splay.rs` and proves properties of the model. The tree is an ordered map from keys to values. Its nodes live in one growable arena (`nodes`). Each node stores its key, its value, and two child references, where `usize::MAX` is the sentinel for "no child".

- `get` and `set` both run one recursive search, `visit`. On the way back up, `visit` records the rotations still owed in a small `Path` state: nothing, one direction or two directions.
- Every two-level debt is paid off by `splay_step`. A last one-level debt is paid by `splay_finish` at the root.
- A rotation relinks two slots and then swaps their contents. A rotated subtree therefore stays rooted in the same slot, and the root slot never moves once it exists.
- `SplayIter` yields the entries in ascending key order. It uses an explicit stack of (slot, right-subtree-started) pairs and never touches the tree.

How the model is organised:

- `splay_types.dfy` holds the value types: `OptionIdx`, `Dir`, `Path`, `OrCreate` and `Node`.
- `tree_model.dfy` holds a ghost `Tree` datatype. Every node remembers the arena slot it occupies. The file also defines the tree's slots, keys, map, in-order sequence and height, and rotation on trees.
- `splay_model.dfy` gives, as functions on `Tree`, what `splay_step`, `splay_finish`, `visit_inner_helper`, `visit_inner`, `visit`, `get` and `set` do.
- `splay_facts.dfy` proves what those functions preserve and compute.
- `arena.dfy` defines `Represents(nodes, entry, tree)`: the arena, entered at a slot, spells out a tree.
- `splay.dfy` holds the `Splay` class. Its fields are `root` and `nodes`, plus the ghost tree they spell out. Each mutating Rust method is a Dafny method that changes those fields, and `child`, `node_depth` and `depth` are read-only functions. Each mutating method is proved to leave the arena representing the tree that the model function gives.
- `splay_iter.dfy` holds the `SplayIter` class, with its `path` stack, `towards_min`, `upwards` and `next`. It also has `Collect`, which drains the iterator as the tests do.
- `map_equivalence.dfy` covers the two unit tests.
  - `test_quickcheck` is stated once on the model, for every operation sequence, and once on the arena.
  - `basic_test` is stated on the arena.

Keys are `int`, and values are of a generic type `V`.

Rotation relinks and then swaps the contents of the two slots (`src/splay.rs:220`), so node contents move between slots. `Rotate` does the same, and no property claims that a key stays in its slot.

## Model

| member | source | states |
|---|---|---|
| SplayTypes.ToOption | src/splay.rs:9-18 | the result is absent exactly when the reference is the `usize::MAX` sentinel; otherwise it is the raw index, which differs from the sentinel |
| SplayTypes.ToOptionOfIndex | src/splay.rs:9-18 | a reference built from an index below the sentinel reads back as that index |
| SplayTypes.Flip | src/splay.rs:94-102 | the flipped direction differs from the given one |
| SplayTypes.Extend | src/splay.rs:111-120 | Empty becomes One(d); One(d1) becomes Two(d, d1); Two(d1, _) becomes Two(d, d1); the result is never Empty |
| SplayTypes.Key | src/splay.rs:127-134 | both a lookup and an insert yield the key they carry |
| SplayTypes.Value | src/splay.rs:136-142 | there is a value exactly for an insert, and it is the inserted value |
| SplayTypes.NodeWithChild | src/splay.rs:181-187 | only the chosen child reference changes: the other child, the key and the value are kept |
| TreeModel.Rotate | src/splay.rs:212-221 | the rotated tree stays rooted at the upper slot and carries the lower node's key and value |
| TreeModel.RotatePreserves | src/splay.rs:212-221 | rotation keeps the set of occupied slots, the uniqueness of slots, the keys, the in-order sequence of entries and the size |
| TreeModel.RotateKeepsOrder | src/splay.rs:212-221 | rotation keeps search-tree order and the map |
| TreeModel.InOrderSorted | src/splay.rs:66-86 | the in-order sequence of a search tree is strictly ascending by key |
| TreeModel.InOrderIsMap | src/splay.rs:66-86 | a pair occurs in a search tree's in-order sequence exactly when the map sends that key to that value |
| TreeModel.HeightAtMostSize | src/splay.rs:153-167 | the height is at most the number of nodes, and at least 1 for a non-empty tree |
| Arena.RotatedRepresents | src/splay.rs:212-221 | relinking the upper node's inner child, pointing the lower node at itself, then swapping the two slots leaves the arena representing the rotated tree at the upper slot |
| SplayModel.SplayStep | src/splay.rs:223-234 | a two-level path is reset to Empty; Empty and One leave tree and path as they were; the result is never Two and stays in the same slot |
| SplayModel.SplayFinish | src/splay.rs:236-246 | the resulting root stays in the same slot and holds the key and value of the node the path pointed at |
| SplayModel.VisitInner | src/splay.rs:273-288 | the path handed back is never Two, so the unreachable branch of `splay_finish` cannot be taken; the subtree stays rooted in its slot |
| SplayModel.VisitInnerHelper | src/splay.rs:248-271 | the rotations owed can be carried out on the resulting subtree, which stays rooted in its slot |
| SplayModel.Visit | src/splay.rs:290-307 | the result is non-empty exactly when the tree was non-empty or the visit inserts; an insert into the empty tree gives the single node in slot `n`; otherwise the root slot is unchanged |
| SplayModel.Set | src/splay.rs:309-313 | the tree is non-empty afterwards |
| SplayModel.LastKey | src/splay.rs:256-269 | the last key on the search path is in the tree; it equals the searched key exactly when the search finds it |
| SplayModel.FoundIffPresent | src/splay.rs:277-283 | in a search tree, comparing down from the root finds a key exactly when it is present |
| SplayFacts.SplayStepFacts | src/splay.rs:223-234 | a splay step keeps slots, keys, slot uniqueness, order and the map, and still owes the lift of the same node |
| SplayFacts.SplayFinishFacts | src/splay.rs:236-246 | the finishing rotation keeps slots, keys, slot uniqueness, order and the map |
| SplayFacts.PendedAfterExtend | src/splay.rs:256-261 | recording the step into the child keeps the owed rotations feasible, and they still lift the same node |
| SplayFacts.VisitInnerKeys | src/splay.rs:273-288 | the keys grow by at most the inserted key; the insert's value comes back exactly when the key was already on the search path; the node owed the lift holds the target key (the inserted key, or the last key of the search path) |
| SplayFacts.VisitInnerHelperKeys | src/splay.rs:248-271 | the same facts for one step down on the side the key lies on |
| SplayFacts.VisitInnerSlots | src/splay.rs:273-288 | slots stay unique, and the new slot `n` is added exactly when a new key is inserted |
| SplayFacts.VisitInnerHelperSlots | src/splay.rs:248-271 | the same slot facts for one step down, including hanging a fresh node where the child is missing |
| SplayFacts.VisitInnerOrder | src/splay.rs:273-288 | search-tree order is kept; the map changes only by inserting the new key with its value |
| SplayFacts.VisitInnerHelperOrder | src/splay.rs:248-271 | the same order and map facts for one step down |
| SplayFacts.VisitFacts | src/splay.rs:290-307 | a visit keeps the tree well formed over an arena of `n` or `n + 1` slots, growing exactly when it inserts an absent key; it hands the value back exactly when an insert finds its key; the root holds the target key |
| SplayFacts.GetFacts | src/splay.rs:189-198 | about `SplayModel.Get`, which models `get` on trees: `get` answers the map's value or absent; map, slots and arena length are kept; an empty tree is unchanged; otherwise the root slot stays and holds the last key of the search path, which is the key itself when present |
| SplayFacts.SetFacts | src/splay.rs:309-313 | the map becomes `Map(t)[k := v]`; the root holds `k` with `v` in the old root slot, or in slot 0 for the first node; the arena grows by one exactly when `k` was absent |
| SplayTree.Splay.constructor | src/splay.rs:146-151 | the container is well formed, with no root, an empty arena and the empty map |
| SplayTree.Splay.ChildIdx | src/splay.rs:173-179 | the reference returned is the stored child on the given side |
| SplayTree.Splay.SetChild | src/splay.rs:181-187 | only that child reference of that slot changes |
| SplayTree.Splay.NewNode | src/splay.rs:200-210 | one childless node is pushed, and its index is the old arena length |
| SplayTree.Splay.Rotate | src/splay.rs:212-221 | the arena represents the rotated subtree at `upper`; its length is kept; every slot other than the two swapped ones is unchanged |
| SplayTree.Splay.SplayStep | src/splay.rs:223-234 | the arena represents the model's splay step at `idx`, and the returned path is the model's; only slots of this subtree change |
| SplayTree.Splay.SplayFinish | src/splay.rs:236-246 | the arena represents the model's finished tree at the root slot, and its length is kept |
| SplayTree.Splay.VisitInner | src/splay.rs:273-288 | the arena represents the model's visited subtree at `nodeIdx`, and value and path are the model's; the arena grows by one exactly when a new key is inserted; slots outside the subtree are unchanged |
| SplayTree.Splay.VisitInnerHelper | src/splay.rs:248-271 | the same as VisitInner, for the step into the `dir` child or the hanging of a new node there |
| SplayTree.Splay.Visit | src/splay.rs:290-307 | the container stays well formed and its tree and value are the model's; growth is as for VisitInner; the root slot never moves once it exists; the first insert puts the root in slot 0; a lookup on the empty tree changes nothing |
| SplayTree.Splay.Get | src/splay.rs:189-198 | the answer is the map's value or absent; map and arena length are kept; on the empty tree nothing changes; otherwise the root slot is kept and holds the last key of the search path |
| SplayTree.Splay.Set | src/splay.rs:309-313 | the map becomes `old map[key := value]`; the arena grows by one exactly when `key` was absent; the root slot holds `key` with `value`; the root slot is unchanged, or is slot 0 after the first insert |
| SplayTree.Splay.NodeDepth | src/splay.rs:153-163 | the result is the height of the subtree the reference enters |
| SplayTree.Splay.Depth | src/splay.rs:165-167 | the result is the tree's height; it is 0 exactly when there is no root; it is at most the arena length |
| SplayIterator.SplayIter.constructor | src/splay.rs:38-45 | the entries still to come are the tree's in-order sequence, which is strictly ascending and holds exactly the map's entries |
| SplayIterator.SplayIter.TowardsMin | src/splay.rs:47-54 | the stack grows; still to come are the subtree's in-order entries, then what was to come before; the new top frame has not started its right subtree and has no left child |
| SplayIterator.SplayIter.Upwards | src/splay.rs:56-63 | what is still to come is unchanged; the stack is a prefix of the old one; it is empty, or its top has not started its right subtree |
| SplayIterator.SplayIter.Next | src/splay.rs:69-86 | the answer is absent exactly when the stack was empty, which is exactly when nothing was still to come; otherwise it is the first entry still to come, and that entry is consumed; only the iterator's stack changes |
| SplayIterator.Collect | src/splay.rs:335-340 | draining `iter()` gives the tree's in-order sequence: strictly ascending, with exactly the map's entries |
| MapEquivalence.ListingIsSorted | src/splay.rs:392-396 | the keys a search tree yields in order are its map's keys, each once, ascending: what sorting the reference map's keys gives |
| MapEquivalence.AscendingUnique | src/splay.rs:335-340 | two strictly ascending listings with the same entries are equal |
| MapEquivalence.ListingOfTwo | src/splay.rs:335-340 | the only ascending listing of the map {1: 1, 2: 1} is [(1, 1), (2, 1)] |
| MapEquivalence.RunMatchesMap | src/splay.rs:381-399 | about `MapEquivalence.RunTree`, which models the operation loop of `test_quickcheck` on trees: from any well-formed tree, every get in a run answers what the map built by the earlier sets holds, and every sorted comparison lists that map's keys in ascending order |
| MapEquivalence.RunFromEmpty | src/splay.rs:376-402 | the same, starting from the empty tree and the empty map |
| MapEquivalence.Quickcheck | src/splay.rs:376-402 | running any operation sequence on a new arena tree beside a reference map always reports success |
| MapEquivalence.InsertTwo | src/splay.rs:327-329 | after setting 1 and 2 the map is {1: 1, 2: 2} and the arena holds two slots |
| MapEquivalence.LookUpThree | src/splay.rs:330-332 | `get(1)` gives 1, `get(2)` gives 2, `get(3)` gives absent; the map is unchanged |
| MapEquivalence.Overwrite | src/splay.rs:333-334 | after `set(2, 1)` the map is {1: 1, 2: 1} and `get(2)` gives 1 |
| MapEquivalence.BasicTest | src/splay.rs:325-341 | every assertion of `basic_test` holds, including the iteration giving [(1, 1), (2, 1)] |

## Left out

- Benchmarks (`benches/`), the randomised depth test (`depth_test`) and the amortised logarithmic cost: these are timing and statistical claims, not invariants.
- Rust lifetimes and borrowing: `get` returns the value itself rather than a reference. The iterator holds the tree by reference and proves, through its `modifies` clauses, that it never writes it.
- The quickcheck and `HashMap` machinery: the random generation of operations is replaced by a universally quantified operation sequence. The reference map is a Dafny `map`, and sorting its keys is stated as `IsSortedListing`.
- MapEquivalence.Quickcheck: the early `return false` on a mismatching `get` is folded into the returned flag, and `assert_eq!` on sorted listings becomes a proved assertion.
- SplayTree.Splay.Set: requires that the arena has fewer than `usize::MAX` slots, so that a new index never collides with the sentinel. The source does not guard against this exhaustion.
- SplayTree.Splay.Rotate, SplayStep and SplayFinish: the `unwrap` calls (src/splay.rs:215, 228, 242) become preconditions that the needed children exist. The visit methods always meet them.
- SplayTree.Splay.NodeDepth and Depth: return an unbounded `nat` instead of a `u32`, so the overflow of a height above 2^32 - 1 is not modelled.
- SplayTree.Splay.VisitInner: the `&mut Path` argument is not an input. It is always `Empty` on entry, because `visit` creates it empty and only the deeper recursive calls then write it. The method returns the path instead.
- SplayTree.Splay.VisitInnerHelper: requires that `dir` is the side the key lies on, which is how `visit_inner` calls it.
- SplayTypes.Extend: `Path::extend` overwrites `*self`; here it is a function that returns the new path, and callers assign it.
- SplayTypes.ToOption: child references are unbounded naturals rather than `usize`, so the model has raw values above `usize::MAX`. `ToOption` treats them as indices, and its contract promises only that an index differs from the sentinel.
- Keys: the generic `K: Ord` becomes `int` with its usual order.
- The intermediate arena inside `rotate`, where a slot briefly points at itself, is not given a meaning. Only the state after the swap is related to a tree.
