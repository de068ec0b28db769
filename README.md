# Violet core, modelled in Dafny

Violet is a small C++ game engine with a Python build script. This project
models the parts of it that are integer, string or container logic, and
proves properties of them. Each core source file has its own Dafny module:

- `make.py`, the incremental build driver (`BuildDriver`). It discovers the
  sources and builds their compiler command lines. It compares preprocessor
  fingerprints against the table saved by the previous run, launches compile
  jobs, persists the new table, and decides whether to link.
- The stable-handle containers:
  - `l_bag` (`LBag`) and the older `Permavector` (`Permavector`);
  - `l_unordered_map` (`LUnorderedMap`);
  - `l_map` (`LMap`);
  - the lexicographic `tuple_tree` (`TupleTree`).
- The implicit binary trees: `Containers/BinTree.hpp` (`BinTree`) and the
  older `BinTree.hpp` (`LegacyBinTree`).
- The keyed resource caches: `Core/Resource.hpp` (`Resource`) and the older
  `Resource.hpp` (`LegacyResource`).
- The fixed-timestep main loop: `Core/Time.*` (`FixedStep`) and the older
  `Time.hpp` (`LegacyFixedStep`).
- The binary formats:
  - the `zip_buf` block framing (`ZipBuf`, with LZF kept abstract);
  - the `BlobFile` reader and writer (`BlobFile`);
  - the little-endian integer encoding under both (`Bytes`).
- The SQL text builders and the statement stepping of `Persist.cpp`
  (`PersistSql`).
- The Wavefront OBJ reader (`Wavefront`) and mesh assembly (`Mesh`).
- The UI box layout stack (`Layout`), and the z-stack and colour swizzle of
  the immediate-mode drawer (`PixelDraw`).
- The uniform bookkeeping:
  - the `Shader.cpp` type decomposition and block layout (`ShaderUniforms`);
  - the `Uniform.cpp` orderings, lookups and storage copies
    (`UniformBlocks`).
- The framebuffer and vertex-array binding save/restore (`Framebuffer`,
  `VertexArray`).
- The cache-freshness rule (`CacheFreshness`).
- The object-id allocator and object names (`Objects`).
- The editor's select/focus state machine (`Editor`).

How the source's form is kept:
- Code that mutates state is modelled as classes with `modifies` clauses.
  This covers the containers, the caches, the loop state, the stream
  buffers, the bindings and the editor.
- The source's loops are modelled as methods with loop invariants. Each one
  is proved against a specification function, and the properties are
  lemmas about those functions.
- Pure code is modelled as functions and lemmas.

The outside world is handled in three ways:
- Processes, hashing, the clock, the file system and OpenGL become
  parameters, oracle functions, or recorded state such as "the framebuffer
  last bound".
- LZF becomes an abstract compress/decompress pair.
- Coordinate values are opaque tokens.

## Model

| member | source | states |
|---|---|---|
| BuildDriver.MakeDir | make.py:18-20 | every discovered file ends in `.cpp` or `.c`, and every such file of every walked directory is discovered, joined to its directory |
| BuildDriver.SourcesIn | make.py:19-20 | the files of one walked directory that are kept all end in `.cpp` or `.c`, and every such file is kept, joined to the directory |
| BuildDriver.SourcePositions | make.py:19-20 | the positions of the `.cpp` and `.c` names in a listing: exactly those positions, in increasing order |
| BuildDriver.SourcesInPositions | make.py:19-20 | the kept names are, one for one and in listing order, the listing's source names joined to the directory |
| BuildDriver.SourcesInOnlySources | make.py:19-20 | nothing else is kept: every kept name is a listed source name joined to the directory |
| BuildDriver.MakeDirOnlySources | make.py:18-20 | every discovered file is a source name listed in some walked directory, joined to that directory |
| BuildDriver.MakeDirAppend | make.py:19 | directories contribute in the order the walk visits them |
| BuildDriver.Join | make.py:19 | the joined path ends with the file name |
| BuildDriver.CommandByLanguage | make.py:22-35 | a `.cpp` file gets `clang++`, itself, `cflags` then `-std=c++11`; a `.c` file gets `clang`, itself and `cflags` only; `cxx('')` is `clang++` |
| BuildDriver.ObjOfSource | make.py:37-38 | for a dot-free relative stem, both `stem.cpp` and `stem.c` become `obj/stem.o` (so a C and a C++ file with one stem share an object) |
| BuildDriver.ReplaceAllSkipsPrefix | make.py:38 | whole-string replacement passes a prefix holding no pattern start through unchanged |
| BuildDriver.FirstPreprocessFailure | make.py:55-56 | the index of the first source whose preprocessing fails: every earlier one succeeds, and that one fails |
| BuildDriver.FirstFailureAt | make.py:55-56 | an index before which every source preprocesses and at which preprocessing fails (or the end) is the first failure |
| BuildDriver.Preprocess | make.py:52-62 | the loop stops at the first preprocessing failure; the commands launched are exactly those of the scheduled sources before it, in source order; when every source preprocesses, the digest table holds every source and the job table every scheduled source |
| BuildDriver.LoopStep | make.py:55-62 | one more source adds its digest, adds its job exactly when it is scheduled (absent from or different in the old table), and appends its compile command exactly then |
| BuildDriver.DigestsHoldEverySource | make.py:52-56 | the digest table's keys are exactly the sources, each mapped to its digest |
| BuildDriver.JobStatusHoldsJobs | make.py:57-62 | the job table's keys are exactly the scheduled sources, each mapped to its exit status |
| BuildDriver.FilterGivesNextSums | make.py:64 | the script's filter keeps exactly the sources with no job or a job that exited 0, with their new digests |
| BuildDriver.Conclude | make.py:64-75 | the persisted table is the filtered one, written before the gate; the run fails iff some compile job exited non-zero; otherwise it links every discovered source's object with `cxx('')` |
| BuildDriver.RunBuild | make.py:40-75 | a missing table reads as empty; a preprocessing failure raises with the old table left in place and only the earlier scheduled jobs launched; otherwise the new table is persisted even when a job failed, a failed job stops the run before the link, and the link lists every object |
| BuildDriver.NoWorkAfterSuccess | make.py:57-64 | after a run whose jobs all succeed, the same unchanged sources schedule nothing |
| BuildDriver.FailedJobRetried | make.py:57-64 | a file whose job failed is dropped from the table and is scheduled again next time |
| BuildDriver.TableTracksSources | make.py:54-64 | files no longer discovered leave the table; an unchanged file keeps its entry |
| LBag.Bag.constructor | Violet/Containers/l_bag.hpp:38-40 | the default bag is empty and has one slot naming the past-the-end position |
| LBag.Bag.FromList | Violet/Containers/l_bag.hpp:41-45 | the list constructor stores the elements in order, and slot i names element i |
| LBag.IotaHasNoFreeSlot | Violet/Containers/l_bag.hpp:178-187 | a table with no free slot makes `new_ind` append one, and that slot then names the new last element |
| LBag.Bag.Find | Violet/Containers/l_bag.hpp:83-86 | a valid handle names a position within the store or past-the-end |
| LBag.Bag.IndexOf | Violet/Containers/l_bag.hpp:97 | the `std::find` loop gives the first slot holding the value, or the slot count |
| LBag.Bag.GetPerma | Violet/Containers/l_bag.hpp:93-99 | `get_perma(pos)` is the first slot naming `pos`: it names `pos` when one does, and no earlier slot names it |
| LBag.Bag.NewInd | Violet/Containers/l_bag.hpp:178-187 | `new_ind` gives the first free slot and leaves the table as it was, or appends a slot when none is free; the store is unchanged |
| LBag.NewIndIsFree | Violet/Containers/l_bag.hpp:178-187 | the slot `new_ind` gives is never a live one: it was free, or it is new and no slot was free |
| LBag.Bag.EmplaceBack | Violet/Containers/l_bag.hpp:101-108 | appends the element; the slot from `new_ind` names the old size and no other slot moves |
| LBag.EmplaceBackCapturesEnd | Violet/Containers/l_bag.hpp:101-108 | after `emplace_back`, live handles keep their element, but a handle that named past-the-end now finds the new element |
| LBag.DefaultBagAliasesAfterEmplaceBack | Violet/Containers/l_bag.hpp:38-40 | in a default bag, the first `emplace_back` leaves two slots naming element 0, so the table is no longer a bijection |
| LBag.Bag.Emplace | Violet/Containers/l_bag.hpp:111-120 | inserts at `pos`; every slot at or past `pos` moves up one, and the new slot names `pos` |
| LBag.EmplaceKeepsHandles | Violet/Containers/l_bag.hpp:111-120 | after `emplace`, every live handle still finds its element, a past-the-end handle still names past-the-end, and the new handle finds the inserted element |
| LBag.EmplaceKeepsBijective | Violet/Containers/l_bag.hpp:111-120 | `emplace` keeps the table a bijection onto the store |
| LBag.Bag.Erase | Violet/Containers/l_bag.hpp:122-131 | removes the element; slots naming it become invalid, later slots move down, and the result is the next position |
| LBag.EraseKeepsOtherHandles | Violet/Containers/l_bag.hpp:122-131 | after `erase`, other handles keep their element and the erased element's handles are invalid |
| LBag.EraseKeepsBijective | Violet/Containers/l_bag.hpp:122-131 | `erase` keeps the table a bijection onto the smaller store |
| LBag.FromListIsBijective | Violet/Containers/l_bag.hpp:41-45 | the list constructor's table is a bijection |
| LBag.Bag.Resize | Violet/Containers/l_bag.hpp:133-160 | an unchanged size changes nothing; shrinking truncates the store and invalidates slots at or past the new size; growing appends fill elements and hands the new positions to the free slots first, then to appended slots |
| LBag.Bag.InvalidateFrom | Violet/Containers/l_bag.hpp:137-141 | the shrinking loop invalidates exactly the slots at or past the new size |
| LBag.Bag.HandOutFreeSlots | Violet/Containers/l_bag.hpp:142-159 | the growing loops give the table `FillFree`: free slots in order take the new positions, then slots are appended for the rest |
| LBag.Bag.ReuseFreeSlots | Violet/Containers/l_bag.hpp:148-154 | the first growing loop fills free slots with consecutive new positions until slots or positions run out |
| LBag.ReuseStep | Violet/Containers/l_bag.hpp:152-154 | one iteration of the reuse loop keeps the loop's relation to `FillFree` |
| LBag.ReuseDone | Violet/Containers/l_bag.hpp:152-158 | when the reuse loop stops, only appended slots remain to be handed out |
| LBag.FillFreeSkipsUsed | Violet/Containers/l_bag.hpp:148-153 | slots in use before the first free slot are left unchanged by the growing fill |
| LBag.FillFreeDone | Violet/Containers/l_bag.hpp:156-158 | once no slot or no position is left, the remaining slots are copied |
| LBag.FillFreeKeepsUsedSlots | Violet/Containers/l_bag.hpp:142-159 | growing never touches a slot in use, and every new position gets a slot |
| LBag.TruncateKeepsSurvivors | Violet/Containers/l_bag.hpp:137-141 | shrinking keeps the handles of surviving elements and invalidates the others |
| Permavector.Permavector.constructor | Violet/Permavector.hpp:21-23 | the default vector is empty and has one slot naming past-the-end |
| Permavector.Permavector.Get | Violet/Permavector.hpp:75-78 | `get` yields the slot's position, an unsigned word |
| Permavector.Permavector.IndexOf | Violet/Permavector.hpp:89 | the `std::find` loop gives the first slot holding the value, or the slot count |
| Permavector.Permavector.GetPerma | Violet/Permavector.hpp:85-91 | `get_perma(pos)` is the first slot naming `pos` (the slot count when none does) |
| Permavector.Permavector.NewInd | Violet/Permavector.hpp:139-148 | `new_ind` reuses the first slot holding the unsigned sentinel, else appends one |
| Permavector.Permavector.EmplaceBack | Violet/Permavector.hpp:93-100 | appends the element; the slot from `new_ind` names the old size and nothing else moves |
| Permavector.Permavector.Emplace | Violet/Permavector.hpp:102-112 | inserts at `pos`; every slot `>= pos` is incremented modulo 2^64, the sentinel included, and the new slot names `pos` |
| Permavector.ShiftUpAsWritten | Violet/Permavector.hpp:108 | the renumbering keeps the slot count |
| Permavector.Permavector.Erase | Violet/Permavector.hpp:114-123 | removes the element; slots naming it get the sentinel and every slot `> pos`, the sentinel included, is decremented |
| Permavector.ShiftDownAsWritten | Violet/Permavector.hpp:117-121 | the renumbering keeps the slot count |
| Permavector.Permavector.FastErase | Violet/Permavector.hpp:125-136 | the erased element's slots get the sentinel, the last element's slots take its position, and the last element moves into the hole |
| Permavector.Redirect | Violet/Permavector.hpp:129-133 | the redirection keeps the slot count |
| Permavector.FastEraseKeepsHandles | Violet/Permavector.hpp:125-136 | `fast_erase` keeps the handles of the other elements, the moved last one included; a past-the-end slot ends one beyond the new end |
| Permavector.EmplaceRevivesFreeSlot | Violet/Permavector.hpp:102-112 | as written, `emplace(begin())` into two free slots wraps the second free slot to 0, so it names the new element too |
| Permavector.EraseLeaksFreeSlot | Violet/Permavector.hpp:114-123 | as written, `erase` turns a free slot into sentinel minus one, which `new_ind` never finds again |
| Permavector.ShiftUpIntended | Violet/Permavector.hpp:108 | the corrected renumbering keeps the slot count |
| Permavector.ShiftDownIntended | Violet/Permavector.hpp:117-121 | the corrected renumbering keeps the slot count |
| Permavector.EmplaceIntendedKeepsHandles | Violet/Permavector.hpp:102-112 | with free slots skipped, `emplace` keeps free slots free, keeps every live and past-the-end handle, and the new handle finds the element |
| Permavector.EraseIntendedKeepsHandles | Violet/Permavector.hpp:114-123 | with free slots skipped, `erase` keeps free slots free and keeps the other elements' handles |
| LUnorderedMap.UnorderedMap.constructor | Violet/Containers/l_unordered_map.hpp:24 | the default map is empty, with an empty index |
| LUnorderedMap.UnorderedMap.Count | Violet/Containers/l_unordered_map.hpp:61 | `count(k)` is 1 iff some stored element has key `k`, else 0 |
| LUnorderedMap.UnorderedMap.Find | Violet/Containers/l_unordered_map.hpp:63-70 | `find(k)` is `end()` iff no element has key `k`, else a position holding key `k` |
| LUnorderedMap.UnorderedMap.At | Violet/Containers/l_unordered_map.hpp:77-83 | `at(k)` throws `domain_error` iff `k` is absent, else gives `k`'s value |
| LUnorderedMap.UnorderedMap.TryEmplace | Violet/Containers/l_unordered_map.hpp:90-101 | an existing key changes nothing and gives its position with false; a new key is appended, indexed at size-1, and given with true; the index stays exact and the key/value contents gain exactly the new pair |
| LUnorderedMap.UnorderedMap.Index | Violet/Containers/l_unordered_map.hpp:85-88 | `operator[]` inserts the value-initialised value only for a missing key, and yields `k`'s element |
| LUnorderedMap.UnorderedMap.EraseAt | Violet/Containers/l_unordered_map.hpp:103-112 | `erase(pos)` swaps with the last element, re-points the moved key to `pos`, drops the erased key and shrinks by one; the index stays exact (`inds[store[i].first] == i`) and exactly the erased key leaves the contents |
| LUnorderedMap.UnorderedMap.EraseKey | Violet/Containers/l_unordered_map.hpp:114-121 | `erase(key)` gives 0 and changes nothing when the key is absent, else 1; the key leaves the contents |
| LMap.OrderedMap.constructor | Violet/Containers/l_map.hpp:28 | the default map has an empty store and an empty index |
| LMap.LowerBound | Violet/Containers/l_map.hpp:127-130 | `lower_bound`: every entry before it has a smaller key and, in a sorted index, none from it on does |
| LMap.OrderedMap.FindInd | Violet/Containers/l_map.hpp:127-130 | the binary search gives the first entry whose key is not less than `k` |
| LMap.LowerBoundUnique | Violet/Containers/l_map.hpp:127-130 | any index with the lower-bound properties is the lower bound, and the key is indexed iff the entry there has it |
| LMap.OrderedMap.At | Violet/Containers/l_map.hpp:81-88 | `at(k)` is `end()` iff no entry has key `k`, else the position of `k`'s entry |
| LMap.OrderedMap.TryEmplace | Violet/Containers/l_map.hpp:101-114 | gives false and changes nothing when `k` is indexed; otherwise inserts the element at `pos`, shifts only the entries strictly above `pos`, and inserts `(k, pos)` at the lower bound; the index stays sorted by key |
| LMap.ShiftAbove | Violet/Containers/l_map.hpp:108-109 | the renumbering keeps the entry count |
| LMap.OrderedMap.RenumberAbove | Violet/Containers/l_map.hpp:108-109 | the loop shifts every entry strictly above `pos` and leaves the store alone |
| LMap.InsertAtLowerBoundSorted | Violet/Containers/l_map.hpp:105-112 | inserting an absent key's entry at its lower bound keeps the index sorted |
| LMap.ShiftedInsertKeepsShape | Violet/Containers/l_map.hpp:105-112 | insertion at the lower bound keeps the index sorted, one entry per element and in range, after any key-preserving renumbering |
| LMap.TryEmplaceMisindexes | Violet/Containers/l_map.hpp:108-109 | as written, in `{1: a}`, inserting key 0 at `begin()` leaves key 1's entry naming position 0, which now holds key 0 |
| LMap.ShiftFrom | Violet/Containers/l_map.hpp:108-109 | the corrected renumbering keeps the entry count |
| LMap.TryEmplaceIntendedKeepsIndex | Violet/Containers/l_map.hpp:101-114 | with the shift including `pos`, `try_emplace` keeps the index sorted and every entry naming its key |
| LMap.ShiftFromInsertConsistent | Violet/Containers/l_map.hpp:108-112 | shifting from `pos` and inserting the new entry keeps every entry naming its key |
| LMap.OrderedMap.TryEmplaceBack | Violet/Containers/l_map.hpp:95-99 | `try_emplace_back` inserts at the store's end; it gives false and changes nothing for an indexed key, and keeps an exact index exact |
| LMap.EmplaceBackKeepsIndex | Violet/Containers/l_map.hpp:95-114 | at the end position no entry moves, so the as-written `try_emplace_back` keeps every entry naming its key |
| LMap.OrderedMap.Erase | Violet/Containers/l_map.hpp:116-124 | as the erase is meant: the erased key is indexed; its entry is dropped, the later entries move down, the element is removed, and the index stays sorted and exact |
| LMap.ShiftBelow | Violet/Containers/l_map.hpp:120-121 | the renumbering keeps the entry count |
| LMap.OrderedMap.RenumberBelow | Violet/Containers/l_map.hpp:120-121 | the loop moves every entry above `pos` down by one and leaves the store alone |
| LMap.EraseKeepsIndex | Violet/Containers/l_map.hpp:116-124 | the intended erase keeps the index sorted and exact |
| LMap.EraseKeepsSorted | Violet/Containers/l_map.hpp:120-122 | renumbering keeps the keys, so dropping an entry leaves the index sorted |
| LMap.EraseKeepsConsistent | Violet/Containers/l_map.hpp:118-123 | dropping the erased key's entry and renumbering later ones keeps every entry naming its key |
| LMap.StoredKeyIndexed | Violet/Containers/l_map.hpp:118 | in an exact index, every stored element's key is indexed |
| LMap.DistinctImageSize | Violet/Containers/l_map.hpp:118 | an index whose entries name distinct positions names as many positions as it has entries |
| TupleTree.RangeOf | Violet/Containers/tuple_tree.hpp:381-392 | over grouped levels, `range_of` lies within the level below and is non-empty for a node of the level |
| TupleTree.RangesTile | Violet/Containers/tuple_tree.hpp:381-392 | the children ranges tile the level below: the first starts at 0, each ends where the next starts, the last ends at the end, none is empty, and `range_of(end())` is the empty range at the end |
| TupleTree.FindIn | Violet/Containers/tuple_tree.hpp:358-359 | `find_if` over the range gives the first node with the value, or the range's end when none has it |
| TupleTree.EmplaceFrom | Violet/Containers/tuple_tree.hpp:353-379 | the recursive emplace keeps the number of levels, returns one perma ref per level, and leaves the levels above the current one alone |
| TupleTree.EmplaceAsWritten | Violet/Containers/tuple_tree.hpp:336-340 | the public `emplace` as written searches all of level 0 and returns one perma ref per level |
| TupleTree.Emplace | Violet/Containers/tuple_tree.hpp:336-340 | the corrected public `emplace` keeps a valid, grouped tree valid and grouped, and returns perma refs naming nodes that spell the tuple, each node a child of the one above |
| TupleTree.EmplaceSpec | Violet/Containers/tuple_tree.hpp:353-379 | from any level and search range, the corrected emplace keeps every level below valid and grouped, returns refs spelling the arguments, reuses the node found in the range (leaving the level alone), and on a miss inserts a node at the range's end holding the ref from below |
| TupleTree.EmplaceBottom | Violet/Containers/tuple_tree.hpp:370-379 | at the bottom, a value found in the range is not duplicated and its perma ref is returned; otherwise it is inserted at the range's end |
| TupleTree.EmplaceStep | Violet/Containers/tuple_tree.hpp:353-368 | above the bottom, the level's find-or-insert keeps the tree grouped, given what the emplace one level down did |
| TupleTree.HitStep | Violet/Containers/tuple_tree.hpp:366-367 | on a hit, the found node's perma ref extends the path, and the tree stays valid |
| TupleTree.MissStep | Violet/Containers/tuple_tree.hpp:362-365 | on a miss, the new node inserted at the range's end, holding the child's ref, extends the path, and the tree stays valid |
| TupleTree.BagEmplaceSlots | Violet/Containers/l_bag.hpp:111-120 | `l_bag::emplace` on a level keeps it a bijection, names the position by the new slot, and moves every other used slot at or after it up by one |
| TupleTree.BagEmplaceValid | Violet/Containers/l_bag.hpp:111-120 | `l_bag::emplace` keeps a level's slot table in range and a bijection |
| TupleTree.BagEmplaceMoves | Violet/Containers/l_bag.hpp:111-120 | `l_bag::emplace` names the position by the new slot and moves the used slots at or after it |
| TupleTree.GroupedAfterHit | Violet/Containers/tuple_tree.hpp:360-367 | a child inserted at the end of the found node's range keeps the level grouped |
| TupleTree.StartsAfterHit | Violet/Containers/tuple_tree.hpp:381-392 | inserting below moves the first children at or past the insertion point up by one and keeps them live |
| TupleTree.GroupedAfterMiss | Violet/Containers/tuple_tree.hpp:360-365 | on a miss, a node inserted at `e` above with its child at the start of the following group below keeps the levels grouped, and the new node has exactly that one child |
| TupleTree.StartsAfterMiss | Violet/Containers/tuple_tree.hpp:381-392 | after a miss, every node above finds its first child where `ShiftedStart` says |
| TupleTree.StartAfterMiss | Violet/Containers/tuple_tree.hpp:381-392 | after a miss, one node's first child is live and lies where `ShiftedStart` says |
| TupleTree.OrderAfterMiss | Violet/Containers/tuple_tree.hpp:381-392 | after a miss, the groups above still start in node order |
| TupleTree.InChildrenAfterHit | Violet/Containers/tuple_tree.hpp:381-392 | slots left alone by an emplace below still name children of the same nodes |
| TupleTree.EmptyTree | Violet/Containers/tuple_tree.hpp:289-294 | a default tree of default `l_bag`s is valid and grouped |
| TupleTree.TwoTuplesValid | Violet/Containers/tuple_tree.hpp:336-340 | the tree built by `emplace(1, 10, 100)` then `emplace(2, 20, 200)` is valid and grouped |
| TupleTree.AsWrittenMiddle | Violet/Containers/tuple_tree.hpp:358-365 | as written, 30 misses among node 1's children and the descent goes into node 20's children |
| TupleTree.AsWrittenBottom | Violet/Containers/tuple_tree.hpp:370-379 | as written, 300 is searched for among node 20's children and appended there |
| TupleTree.EmplaceAsWrittenBreaksGrouping | Violet/Containers/tuple_tree.hpp:358-360 | as written, `emplace(1, 30, 300)` on that tree leaves the middle level's groups starting at 0, 2, 1, so the tree is no longer grouped; the corrected emplace keeps it grouped |
| BinTree.NavigationInverse | Violet/Containers/BinTree.hpp:23-28 | both children of `i` name `i` as parent; a non-root node is the left or right child of its parent, which is smaller; the root's parent is the wrapped `(2^64 - 1) / 2` |
| BinTree.Depth | Violet/Containers/BinTree.hpp:31-37 | the number of parent steps to the root is floor(log2(i + 1)): `2^d <= i + 1 < 2^(d+1)` |
| BinTree.DepthStep | Violet/Containers/BinTree.hpp:35 | one parent step keeps the depth loop's bracket on `i + 1` |
| BinTree.BottomRowIsLeaves | Violet/Containers/BinTree.hpp:29 | in a tree of height `h >= 1`, the bottom nodes are exactly the last `2^(h-1)`, `size / 2` is the inner-node count, and their leaf numbers `it - size / 2` run over `0 .. 2^(h-1) - 1` |
| BinTree.Tree.Leaf | Violet/Containers/BinTree.hpp:47 | a bottom node's leaf is `leaves[it - nodes.size() / 2]`, which is in range |
| BinTree.UnfoldChildren | Violet/Containers/BinTree.hpp:88-98 | node `i`'s children `2i+1` and `2i+2` are what `makeNode` makes from `i`'s state and value |
| BinTree.UnfoldStep | Violet/Containers/BinTree.hpp:88-98 | one iteration of the first loop keeps the node list and the FIFO state queue aligned with the breadth-first unfolding |
| BinTree.UnfoldInner | Violet/Containers/BinTree.hpp:79-98 | the first loop yields `2^h - 1` nodes, each the unfolding at its index, and the `2^(h-1)` states of the bottom nodes in order |
| BinTree.MakeLeaves | Violet/Containers/BinTree.hpp:100-107 | the second loop makes `2^(h-1)` leaves, leaf `j` from the state and value of node `2^(h-1) - 1 + j` |
| BinTree.Tree.Build | Violet/Containers/BinTree.hpp:76-108 | the constructor gives `2^h - 1` nodes in breadth-first order and one leaf per bottom node, made from that node's value and state |
| BinTree.Tree.Height | Violet/Containers/BinTree.hpp:121-126 | `Height` is the least `h` with `2^h >= nodes.size()`; it gives back the build height when that is at least 2, and 0 for a height-1 tree |
| BinTree.HeightRecoversBuildHeight | Violet/Containers/BinTree.hpp:121-126 | for a build height of at least 2, the only `h` meeting `Height`'s bracket is the build height |
| BinTree.Tree.HeightIntended | Violet/Containers/BinTree.hpp:121-126 | the least `h` with `2^h - 1 >= nodes.size()` gives back every build height |
| BinTree.HeightIntendedRecoversBuildHeight | Violet/Containers/BinTree.hpp:121-126 | the only `h` meeting the corrected bracket is the build height, 1 included |
| LegacyBinTree.LegacyBottomIsBottomButOne | Violet/BinTree.hpp:29 | the strict `Bottom` differs from the newer one only on the node whose left child is exactly `end()`, and a strict-bottom node is at or past the middle |
| LegacyBinTree.FirstBottomNodeIsNotLegacyBottom | Violet/BinTree.hpp:29 | in a complete tree of height at least 2, the first bottom node is not bottom under the strict comparison |
| LegacyBinTree.LegacyTree.constructor | Violet/BinTree.hpp:55-58 | the tree from a root has exactly one inner node and no leaves |
| LegacyBinTree.LegacyTree.PreorderLeafPush | Violet/BinTree.hpp:72-75 | appends one leaf and changes nothing else |
| LegacyBinTree.GrowLeaves | Violet/BinTree.hpp:97-101 | `ReserveLeaves(idx)` makes `idx` a valid leaf index: it grows to `idx + 1` with default leaves when shorter, and otherwise keeps the leaves |
| LegacyBinTree.LegacyTree.ReserveLeaves | Violet/BinTree.hpp:97-101 | the leaves become `GrowLeaves` of the old ones and the inner nodes are unchanged |
| LegacyBinTree.GrowLeavesIdempotent | Violet/BinTree.hpp:97-101 | reserving a leaf twice is reserving it once |
| LegacyBinTree.GrowNodes | Violet/BinTree.hpp:103-112 | `ReserveNodes(idx)` past the inner nodes first drops `idx - inner.size()` leading leaves when there are that many, then grows the inner nodes to `idx + 1` with default nodes; otherwise nothing changes |
| LegacyBinTree.LegacyTree.ReserveNodes | Violet/BinTree.hpp:103-112 | the inner nodes and leaves become `GrowNodes` of the old ones |
| LegacyBinTree.GrowNodesIdempotent | Violet/BinTree.hpp:103-112 | reserving a node twice is reserving it once |
| LegacyBinTree.LegacyTree.Deref | Violet/BinTree.hpp:16-20 | dereferencing reserves the node, then gives its old value, or the default for a node just made |
| LegacyBinTree.LegacyTree.Leaf | Violet/BinTree.hpp:78-83 | reserves leaf `it - inner.size() / 2` and gives it; an existing leaf is given unchanged |
| Resource.Cache.constructor | Violet/Core/Resource.hpp:10-14 | the static cache starts empty, with no objects made |
| Resource.Cache.Key | Violet/Core/Resource.hpp:67-70 | `Key()` is the construction key, and any cache entry naming the object is under that key |
| Resource.Cache.FindResource | Violet/Core/Resource.hpp:52-56 | null iff the key is absent or its object has expired; otherwise a live object of that key |
| Resource.Cache.MakeShared | Violet/Core/Resource.hpp:44-50 | makes a new live object and registers it under its key, overwriting any previous entry; it is then found |
| Resource.Cache.FindOrMake | Violet/Core/Resource.hpp:58-65 | gives the live cached object with nothing changed, or else makes and caches a new one; either way the key then finds it |
| Resource.Cache.Expire | Violet/Core/Resource.hpp:30-39 | with the destructor commented out, the last owner letting go leaves the entry behind, and `FindResource` reports null for it |
| Resource.FindOrMakeTwice | Violet/Core/Resource.hpp:58-65 | two `FindOrMake` calls with one key, the first result held, give the same object and create at most one |
| Resource.FindOrMakeAfterExpiry | Violet/Core/Resource.hpp:52-65 | after the object expires, the next `FindOrMake` makes a new object rather than reviving the old one |
| LegacyResource.Destroy | Violet/Resource.hpp:28-31 | the destructor kills the object and erases the entry under its key, whichever object it names |
| LegacyResource.DestroyOlderHidesNewer | Violet/Resource.hpp:28-42 | when an older object of a re-registered key dies, `FindResource` reports null although the newer object is alive |
| LegacyResource.ExpireOlderKeepsNewer | Violet/Core/Resource.hpp:30-50 | with the newer cache, the same sequence leaves the newer object findable |
| FixedStep.Clamp | Violet/Core/Time.hpp:29-30 | the clamped frame time is at most the limit, and is the frame time itself when that is within the limit |
| FixedStep.DrainSpec | Violet/Core/Time.hpp:45-51 | the tick loop spends one step per tick that answered true; on completion less than a step is left; on a stop the failed tick is the last call and at least a step is left; every other call answered true; a non-negative accumulator stays non-negative |
| FixedStep.DrainCompleteSplitsSteps | Violet/Core/Time.hpp:45-51 | a completed tick loop from a non-negative accumulator runs exactly `acc / dt` ticks and leaves `acc % dt` |
| FixedStep.DrainStep | Violet/Core/Time.hpp:45-51 | one turn of the tick loop: a true tick spends a step and goes on; a false tick stops |
| FixedStep.ElapsedAppend | Violet/Core/Time.hpp:28-43 | one more clock reading adds its clamped frame time to the total |
| FixedStep.ElapsedBounded | Violet/Core/Time.hpp:29-30 | the clamp bounds each frame, so `n` frames simulate at most `n` frame limits |
| FixedStep.Time.constructor | Violet/Core/Time.cpp:4-7 | starts at the clock's reading, with nothing accumulated and nothing simulated |
| FixedStep.Time.SimTime | Violet/Core/Time.cpp:9-12 | `SimTime` is the simulated time, a non-negative whole number of 30 ms steps |
| FixedStep.Time.SimTimeMs | Violet/Core/Time.cpp:14-17 | `SimTimeMs` is the simulated time in milliseconds |
| FixedStep.Time.Ticks | Violet/Core/Time.hpp:45-51 | the inner loop leaves the accumulator and call count `Drain` gives, and keeps `simTime + accumulator` |
| FixedStep.Time.Frame | Violet/Core/Time.hpp:28-56 | one frame sets `currentTime` to the reading, adds the frame time clamped to `frameLimit`, drains ticks, grows `simTime + accumulator` by exactly the clamped frame time, and renders with `alpha = accumulator / dt < 1` when no tick stopped it |
| FixedStep.Time.MainLoop | Violet/Core/Time.hpp:24-58 | over a run of readings, frames run until a tick answers false; `renderTick` is called once per completed frame with `alpha < 1`; `simTime + accumulator` grows by the total clamped frame time |
| LegacyFixedStep.LiteralLimitIsFrameLimit | Violet/Time.hpp:23-24 | the literal 250 ms clamp equals the newer `frameLimit` |
| LegacyFixedStep.LegacyTime.constructor | Violet/Time.cpp:4-7 | starts at the clock's reading with nothing accumulated |
| LegacyFixedStep.LegacyTime.Frame | Violet/Time.hpp:19-40 | one frame clamps to 250 ms, accumulates, ticks while at least `dt` is left (stopping on a false tick), and renders with `alpha = accumulator / dt < 1` |
| ZipBuf.Frame | Violet/Utils/ZipBuf.cpp:51-77 | a frame is the two 16-bit sizes followed by the payload, so at least 4 bytes; `DeframeFrame` reads it back |
| ZipBuf.BlockLen | Violet/Utils/ZipBuf.cpp:51-52 | the leading block is all of the put area up to `BLOCK_SIZE`, and is non-empty when the put area is |
| ZipBuf.FramesUnfold | Violet/Utils/ZipBuf.cpp:42-44 | `sync`'s output for a non-empty buffer is the frame of its leading block followed by the frames of the rest |
| ZipBuf.PartialFrame | Violet/Utils/ZipBuf.cpp:61-77 | stopping at the first short `sputn` leaves on the stream exactly the prefix of the frame that it accepted |
| ZipBuf.Deframe | Violet/Utils/ZipBuf.cpp:92-115 | `underflow`'s read as written consumes at most the stream, and a block it gives is at most `BLOCK_SIZE` bytes after a 4-byte header |
| ZipBuf.DeframeChecked | Violet/Utils/ZipBuf.cpp:92-115 | the read with the payload length checked has the same bounds |
| ZipBuf.DeframeCheckedAgrees | Violet/Utils/ZipBuf.cpp:100-115 | whenever the payload the header announces is all there, the checked read and the read as written agree |
| ZipBuf.TruncatedBlockAccepted | Violet/Utils/ZipBuf.cpp:105-115 | the stream `2, 0, 0, 0, 7` is read as written as a two-byte block whose second byte is stale stack memory; the checked read gives eof |
| ZipBuf.FrameLayout | Violet/Utils/ZipBuf.cpp:61-77 | a frame's first two bytes hold the uncompressed size and the next two the compressed size, little-endian, then the payload |
| ZipBuf.DeframeFrame | Violet/Utils/ZipBuf.cpp:49-115 | for a compressor that fits a block and a decompressor that inverts it, reading a frame gives back exactly the framed block and the bytes after it |
| ZipBuf.DecodeAllStep | Violet/Utils/ZipBuf.cpp:86-117 | reading blocks to the end of a stream is the first block followed by the rest |
| ZipBuf.DecodeAllFrames | Violet/Utils/ZipBuf.cpp:40-117 | round trip: reading back every block `sync` framed gives the bytes that were buffered |
| ZipBuf.ZipBuf.constructor | Violet/Utils/ZipBuf.cpp:8-14 | both buffers start empty, with or without an underlying stream |
| ZipBuf.ZipBuf.Sputn | Violet/Utils/ZipBuf.cpp:61-77 | the underlying stream takes as many bytes as it has room for, and reports how many |
| ZipBuf.ZipBuf.Sgetn | Violet/Utils/ZipBuf.cpp:93-110 | the underlying stream gives as many of the asked bytes as it holds, and drops them |
| ZipBuf.ZipBuf.SputFrame | Violet/Utils/ZipBuf.cpp:61-77 | the three writes succeed exactly when the whole frame fits; otherwise the stream holds the part that fitted and has no room left |
| ZipBuf.ZipBuf.WriteSome | Violet/Utils/ZipBuf.cpp:49-84 | with a stream and at least `min` bytes buffered, the leading block's frame goes to the stream and the block leaves the buffer; a short write is eof; otherwise nothing changes and the result is 0 |
| ZipBuf.ZipBuf.Overflow | Violet/Utils/ZipBuf.cpp:33-38 | eof exactly when a full block is buffered and its frame does not fit; otherwise that block is framed and `c` is appended and returned |
| ZipBuf.ZipBuf.FlushBlock | Violet/Utils/ZipBuf.cpp:42-44 | one turn of `sync`'s loop frames the leading block and reports whether the whole frame went out |
| ZipBuf.SyncSpinsWithoutStream | Violet/Utils/ZipBuf.cpp:40-47 | with bytes buffered and no stream, `write_some(0)` returns 0 and leaves the buffer as it was, so `sync`'s loop never ends |
| ZipBuf.ZipBuf.SyncIntended | Violet/Utils/ZipBuf.cpp:40-47 | without a stream it fails unless nothing is buffered; with one, success means the buffer is empty and the stream got `Frames` of it, and success is certain when all of that fits |
| ZipBuf.ZipBuf.Underflow | Violet/Utils/ZipBuf.cpp:86-117 | a non-empty get area gives its next byte; otherwise the block `Deframe` reads becomes the get area and its first byte is the result, eof when there is none |
| Bytes.LE | Violet/File/BlobFile.hpp:24-28 | a value stored in `w` bytes takes exactly `w` bytes |
| Bytes.FromLE | Violet/File/BlobFile.hpp:58-65 | the bytes read back stand for a value below 256^width |
| Bytes.FromLEOfLE | Violet/File/BlobFile.hpp:24-65 | round trip: reading back the bytes of a value that fits its width gives the value |
| Bytes.LEOfFromLE | Violet/File/BlobFile.hpp:24-65 | round trip the other way: storing the value read from some bytes, at their width, gives the same bytes |
| Bytes.U16 | Violet/File/BlobFile.cpp:15 | a `uint16_t` is two bytes |
| Bytes.U32 | Violet/File/BlobFile.cpp:17 | a `uint32_t` is four bytes |
| Bytes.U64 | Violet/File/BlobFile.hpp:35 | a `uint64_t` (`BlobSizeType`) is eight bytes |
| Bytes.UnsignedRoundTrips | Violet/File/BlobFile.hpp:24-65 | each of the three unsigned widths reads back what it wrote when the value is in range |
| Bytes.DecodesTo | Violet/File/BlobFile.hpp:58-65 | bytes read as `n` exactly when they are the encoding of an `n` that fits their width |
| BlobFile.Header | Violet/File/BlobFile.cpp:15-17 | the header is ten bytes: the endianness marker, the magic, the version |
| BlobFile.Take | Violet/File/BlobFile.hpp:58-65 | `Read<T>` succeeds exactly when enough bytes are left, giving them and the rest; a short read throws "Insufficient data in blob file" |
| BlobFile.ReadUnsigned | Violet/File/BlobFile.hpp:58-65 | reading a `w`-byte unsigned succeeds exactly when `w` bytes are left, gives a value below 256^w and consumes `w` bytes |
| BlobFile.ReadBool | Violet/File/BlobFile.cpp:49-52 | `ReadBool` succeeds exactly when a byte is left and is true exactly when that byte is 1 |
| BlobFile.Split | Violet/File/BlobFile.hpp:76-83 | the element bytes are cut into `count` elements of `sizeof(T)` bytes each |
| BlobFile.ReadVector | Violet/File/BlobFile.hpp:76-83 | every element `ReadVector` gives has the element width |
| BlobFile.ReadString | Violet/File/BlobFile.cpp:54-58 | a string read is the bytes after its eight-byte length, that many of them, and reading goes on after it |
| BlobFile.CheckHeader | Violet/File/BlobFile.cpp:37-44 | the header check passes exactly when the first ten bytes are the header of this magic and version; a wrong marker throws "Incorrect endianness" |
| BlobFile.HeaderBytes | Violet/File/BlobFile.cpp:37-44 | comparing marker, magic and version one at a time is the same as comparing the ten bytes to the header |
| BlobFile.ReadBoolRoundTrip | Violet/File/BlobFile.cpp:26-52 | `ReadBool` after `Write(bool)` gives the bool back and leaves what follows |
| BlobFile.ReadUnsignedRoundTrip | Violet/File/BlobFile.hpp:24-65 | `Read<T>` after `Write<T>` gives the unsigned value back and leaves what follows |
| BlobFile.FlattenLength | Violet/File/BlobFile.hpp:33-37 | the element bytes of a vector are `sizeof(T)` times its size |
| BlobFile.SplitFlatten | Violet/File/BlobFile.hpp:33-83 | cutting the written element bytes back into elements gives the elements |
| BlobFile.ReadVectorRoundTrip | Violet/File/BlobFile.hpp:33-83 | `ReadVector` after `Write(vector)` gives the vector back and leaves what follows |
| BlobFile.ReadStringRoundTrip | Violet/File/BlobFile.cpp:20-58 | `ReadString` after `Write(string)` gives the string back and leaves what follows |
| BlobFile.ReadBoolOfOtherByte | Violet/File/BlobFile.cpp:49-52 | any byte other than 1 reads as false |
| BlobFile.BlobOutFile.constructor | Violet/File/BlobFile.cpp:15-17 | an opened writer has written the header |
| BlobFile.BlobOutFile.WriteRaw | Violet/File/BlobFile.hpp:24-28 | `Write<T>` appends the value's bytes |
| BlobFile.BlobOutFile.WriteBool | Violet/File/BlobFile.cpp:26-29 | `Write(bool)` appends one byte, 1 or 0 |
| BlobFile.BlobOutFile.WriteVector | Violet/File/BlobFile.hpp:32-44 | `Write(vector)` and `Write(range)` append the count as a `uint64_t`, then the elements |
| BlobFile.BlobOutFile.WriteString | Violet/File/BlobFile.cpp:20-24 | `Write(string)` appends the length as a `uint64_t`, then the characters |
| BlobFile.OpenOut | Violet/File/BlobFile.cpp:6-18 | a file that does not open throws `runtime_error("Could not open file '…'")`; otherwise the writer starts with the header |
| BlobFile.BlobInFile.constructor | Violet/File/BlobFile.cpp:31-47 | reading starts at the given bytes |
| BlobFile.BlobInFile.ReadRaw | Violet/File/BlobFile.hpp:58-65 | `Read<T>` gives `Take`'s result and consumes what it read |
| BlobFile.BlobInFile.ReadSize | Violet/File/BlobFile.hpp:67-71 | `Read<size_t, BlobSizeType>` reads an eight-byte unsigned |
| BlobFile.BlobInFile.ReadBoolean | Violet/File/BlobFile.cpp:49-52 | `ReadBool` consumes one byte as `ReadBool` states |
| BlobFile.BlobInFile.ReadElements | Violet/File/BlobFile.hpp:75-83 | `ReadVector<T>` consumes the count and the elements as `ReadVector` states |
| BlobFile.BlobInFile.ReadText | Violet/File/BlobFile.cpp:54-58 | `ReadString` consumes a string as `ReadString` states |
| BlobFile.OpenIn | Violet/File/BlobFile.cpp:31-47 | a file that does not open throws "Could not open file"; otherwise it opens exactly when the header check passes, throws the check's error when not, and reading starts after the header |
| BlobFile.HeaderRoundTrip | Violet/File/BlobFile.cpp:6-47 | a file the writer started passes the reader's header check for the same magic and version |
| PersistSql.TypeName | Violet/Persist.cpp:173-190 | each of the five affinities has its SQL name; any other value throws `domain_error("Invalid column affinity")` |
| PersistSql.TypeNameInjective | Violet/Persist.cpp:173-190 | distinct affinities get distinct names |
| PersistSql.JoinSnoc | Violet/Persist.cpp:202-217 | printing one more item after a separator extends the joined list by that item |
| PersistSql.Names | Violet/Persist.cpp:241-243 | the printed names are the columns' names, in order |
| PersistSql.ColumnDefs | Violet/Persist.cpp:202-214 | each column is defined with its name and type; the first is the primary key and an `object` column references the object table |
| PersistSql.CountAppend | Violet/Persist.cpp:270-280 | placeholders in a concatenation add up |
| PersistSql.CountPlaceholders | Violet/Persist.cpp:276-280 | the `values` list for `n` columns holds `n` placeholders |
| PersistSql.InsertPlaceholders | Violet/Persist.cpp:265-283 | the insert statement has exactly one `?` per column, when no name holds one |
| PersistSql.SelectSome | Violet/Persist.cpp:249-263 | the select-some statement is the select-all statement narrowed by ` where col = ?` |
| PersistSql.ColumnList | Violet/Persist.cpp:202-215 | the column loop prints every definition, `, `-separated, and notes an `object` column, exactly when every affinity is valid; otherwise it throws the affinity error |
| PersistSql.ColumnListStep | Violet/Persist.cpp:202-215 | one turn of the column loop extends the printed list and the foreign-key flag |
| PersistSql.Persist.constructor | Violet/Persist.cpp:168-171 | no subsystem is tracked and no statement issued |
| PersistSql.Persist.Track | Violet/Persist.cpp:192-233 | the columns are recorded; with valid affinities the `create table` statement is stepped, followed by the object trigger exactly when a column is named `object`; an invalid affinity issues nothing and throws |
| PersistSql.Persist.PrintNames | Violet/Persist.cpp:240-243 | the key's name then `, ` and each other name: all names joined |
| PersistSql.Persist.MakeSelectAllStmt | Violet/Persist.cpp:235-247 | `select` every column, in order, `from` the subsystem |
| PersistSql.Persist.MakeSelectSomeStmt | Violet/Persist.cpp:249-263 | the select-all statement with ` where col = ?` |
| PersistSql.Persist.MakeInsertStmt | Violet/Persist.cpp:265-283 | `insert or replace` every column with one `?` per column |
| PersistSql.Persist.MakeExistsStmt | Violet/Persist.cpp:285-294 | an `exists` test on the key column |
| PersistSql.PreparedStmt.constructor | Violet/Persist.cpp:15-17 | a statement that has not been stepped has no last result |
| PersistSql.PreparedStmt.Step | Violet/Persist.cpp:66-77 | with a statement, the step's result is recorded and anything but a row or done throws `logic_error`; without one nothing happens |
| PersistSql.PreparedStmt.HasRow | Violet/Persist.cpp:85-88 | true only after a step that produced a row |
| Wavefront.Step | Violet/Wavefront.cpp:49-82 | a `v`, `vn` or `vt` record appends one element to its own vector, an `f` record three indices, anything else nothing; what was there stays |
| Wavefront.CollectAppend | Violet/Wavefront.cpp:46-83 | records contribute independently: reading two runs of records appends what each gives alone |
| Wavefront.StepConcat | Violet/Wavefront.cpp:49-82 | one record's effect does not depend on what came before it |
| Wavefront.Faces | Violet/Wavefront.cpp:64-80 | the selected records are all `f` records |
| Wavefront.FaceIndices | Violet/Wavefront.cpp:64-80 | every face adds exactly its three indices, each one less than written, in file order |
| Wavefront.VertsArePositions | Violet/Wavefront.cpp:49-53 | one vertex per `v` record, in file order |
| Wavefront.Echo | Violet/Wavefront.cpp:46-80 | the extra turn after the last line repeats at most that last line: always a final `v`, `vn` or `vt` record, a final `f` record only when something follows its third index, never any other line |
| Wavefront.ReadRecords | Violet/Wavefront.cpp:46-83 | the loop as written reads every record and then repeats the last one as `Echo` says |
| Wavefront.EchoStep | Violet/Wavefront.cpp:46-48 | unless the closing `ignore` of a final `f` record already failed the stream, the extra turn applies the previous `letter`'s record once more |
| Wavefront.ReadRecordsIntended | Violet/Wavefront.cpp:46-83 | the loop with the extraction as its condition reads every record exactly once |
| Wavefront.LastVertexTwice | Violet/Wavefront.cpp:46-53 | as written, a file ending in a `v` line, with or without a newline after it, yields one vertex more than it has `v` lines, the last one twice |
| Wavefront.LastFaceTwice | Violet/Wavefront.cpp:46-80 | as written, a file ending in an `f` line followed by a newline yields that triangle twice |
| Wavefront.EchoHarmlessAfterOther | Violet/Wavefront.cpp:64-82 | a file ending in any other line, or in an `f` line with nothing after it, reads the same either way |
| Wavefront.BuildAttribs | Violet/Wavefront.cpp:85-94 | one interleaved vertex per position, in order; the i-th takes the i-th normal and texture coordinate while there are any, zero after |
| Wavefront.LoadWavefront | Violet/Wavefront.cpp:23-99 | a cached VAO is returned without reading; an unopenable file throws "Cannot open Render file"; otherwise the records are read by the loop as written, its repeated last record included, the vertices and 0-based indices are built from them, and the new VAO is cached under the file name |
| Mesh.Triangles | Violet/Geometry/Mesh.cpp:18-28 | one triangle per index triple |
| Mesh.TrianglesAppend | Violet/Geometry/Mesh.cpp:24-25 | triangles are assembled one triple at a time: concatenated index lists give concatenated meshes |
| Mesh.MakeMesh | Violet/Geometry/Mesh.cpp:18-28 | the mesh has one triangle per index triple, whose corners are the vertices the triple names |
| Mesh.FilterMembers | Violet/Geometry/Mesh.cpp:30-38 | a triangle is kept exactly when it was in the mesh and touches the box |
| Mesh.FilterIdempotent | Violet/Geometry/Mesh.cpp:30-38 | chopping never adds triangles, and chopping again to the same box changes nothing |
| Mesh.FilterKeepsAll | Violet/Geometry/Mesh.cpp:30-38 | when every triangle touches the box, nothing is removed |
| Mesh.ApproxChop | Violet/Geometry/Mesh.cpp:30-38 | erase–remove keeps exactly the triangles that intersect the box, in their order |
| Mesh.BoundContains | Violet/Geometry/Mesh.cpp:40-53 | every corner of every triangle lies in the computed box |
| Mesh.LoAttained | Violet/Geometry/Mesh.cpp:40-53 | for a non-empty mesh of finite coordinates, each lower bound is some corner's coordinate |
| Mesh.Bound | Violet/Geometry/Mesh.cpp:40-53 | the loop computes, per axis, the least and greatest corner coordinate, starting from the largest float and its negation |
| Mesh.LoadMesh | Violet/Geometry/Mesh.cpp:10-16 | a Wavefront file is loaded as the mesh it holds; any other file throws "Unrecognized object file …" |
| Layout.GetNext | Violet/UI/Layout.cpp:6-12 | the next child starts where the filled part ends along the layout's axis, spans the layout across it, and is empty along it |
| Layout.PutNext | Violet/UI/Layout.cpp:14-26 | placing a child grows the filled extent along the axis by the child's extent; across it, filled extent and size both become the larger of the two |
| Layout.Top | Violet/UI/Layout.cpp:33-36 | an empty layout of the given size at the origin |
| Layout.GetLast | Violet/UI/Layout.cpp:38-48 | the last child starts where `getNext` would and takes all that remains along the axis |
| Layout.GetLastReachesEdge | Violet/UI/Layout.cpp:38-48 | the last child ends exactly at the layout's far edge |
| Layout.GetLastFills | Violet/UI/Layout.cpp:14-48 | placing the last child fills the layout along its axis |
| Layout.ChildrenAbut | Violet/UI/Layout.cpp:6-26 | children are laid end to end: after placing one, the next starts where it ends |
| Layout.EmptyChildKeepsFill | Violet/UI/Layout.cpp:6-26 | placing an untouched `getNext` child leaves the filled extent along the axis unchanged |
| Layout.LayoutStack.constructor | Violet/UI/Layout.cpp:50-53 | the stack holds one `Top` layout |
| Layout.LayoutStack.PushLayer | Violet/UI/Layout.cpp:55-58 | pushes a fresh top-level layout of the base layer's size |
| Layout.LayoutStack.PushNext | Violet/UI/Layout.cpp:60-64 | pushes the current layout's next child |
| Layout.LayoutStack.Pop | Violet/UI/Layout.cpp:72-80 | removes the current layout, accounts for it in its parent if there is one, and gives the space that was left in it |
| Layout.LayoutStack.PushRest | Violet/UI/Layout.cpp:66-70 | pops the current layout and pushes the space that was left in it |
| Layout.LayoutStack.PutSpace | Violet/UI/Layout.cpp:82-88 | claims the next child's space grown to at least the requested size, accounts for it in the current layout, and gives it |
| Layout.PutSpaceCoversRequest | Violet/UI/Layout.cpp:82-88 | the claimed space is at least as large as requested and the filled extent grows by at least the request |
| PixelDraw.ColorSwizzle | Violet/UI/PixelDraw.cpp:26-36 | the result's bytes are the colour's bytes in the opposite order |
| PixelDraw.SwizzleTwice | Violet/UI/PixelDraw.cpp:26-36 | swizzling twice gives the colour back |
| PixelDraw.PushedZ | Violet/UI/PixelDraw.cpp:215-219 | pushing keeps the stack below and puts on top the current depth plus `dz` |
| PixelDraw.PoppedZ | Violet/UI/PixelDraw.cpp:221-224 | popping drops the top and keeps the rest |
| PixelDraw.PushThenPop | Violet/UI/PixelDraw.cpp:215-229 | `PopZ` after `PushZ` gives back the stack, and so the depth, from before |
| PixelDraw.Visuals.constructor | Violet/UI/PixelDraw.cpp:93-101 | nothing to draw, at depth 1 |
| PixelDraw.Visuals.CurZ | Violet/UI/PixelDraw.cpp:226-229 | the depth on top of the stack |
| PixelDraw.Visuals.PushZ | Violet/UI/PixelDraw.cpp:215-219 | the new depth is the old one plus `dz`; nothing drawn changes |
| PixelDraw.Visuals.PopZ | Violet/UI/PixelDraw.cpp:221-224 | the top depth is dropped; nothing drawn changes |
| PixelDraw.Visuals.DrawBox | Violet/UI/PixelDraw.cpp:237-241 | appends one box with swizzled colours at the current depth; nothing else changes |
| PixelDraw.Visuals.DrawPlainBox | Violet/UI/PixelDraw.cpp:243-246 | a box in the background colour for fill and stroke |
| PixelDraw.Visuals.DrawHlBox | Violet/UI/PixelDraw.cpp:248-251 | an unfilled highlight outline one step above the current depth |
| PixelDraw.Visuals.DrawShadow | Violet/UI/PixelDraw.cpp:253-256 | appends one shadow at the current depth |
| PixelDraw.Visuals.DrawDivider | Violet/UI/PixelDraw.cpp:263-268 | an unfilled divider-coloured box from the top-left corner to one pixel below the top-right corner |
| PixelDraw.Visuals.Reset | Violet/UI/PixelDraw.cpp:111 | the frame's visuals start over empty at depth 1 |
| PixelDraw.BeginFrame | Violet/UI/PixelDraw.cpp:109-114 | a frame starts with no boxes or shadows at depth 1 and a layout stack of one window-sized layout filling to the right |
| ShaderUniforms.MakeUniformType | Violet/Rendering/Shader.cpp:11-41 | an n-vector of a scalar type is that scalar with n rows and one column; an n-by-n matrix is float, n by n; a scalar and any other type is itself, one by one |
| ShaderUniforms.TrimNameRecovers | Violet/Rendering/Shader.cpp:290-293 | dropping the terminator (and `[0]` for an array) gives back the declared name |
| ShaderUniforms.MembersOfExactly | Violet/Rendering/Shader.cpp:273-302 | a uniform is listed in block `b` exactly when some reported uniform goes to `b` and becomes it |
| ShaderUniforms.DoQuery | Violet/Rendering/Shader.cpp:253-305 | one block per active block plus a final default block; each active block is named without its terminator and sized as reported; the default block is unnamed and empty-sized; every block holds exactly the uniforms that go to it, in query order |
| ShaderUniforms.BlockMember | Violet/Rendering/Shader.cpp:311-317 | the first member with that name exactly when there is one; otherwise `runtime_error("No uniform '…' in block '…'")` |
| ShaderUniforms.Uniforms.constructor | Violet/Rendering/Shader.cpp:307-309 | the program's blocks are the queried ones |
| ShaderUniforms.Uniforms.Index | Violet/Rendering/Shader.cpp:319-329 | the first block with that name, the blocks unchanged; when there is none, a new empty block with that name is appended and given |
| ShaderUniforms.Decimal | Violet/Rendering/Shader.cpp:426 | `to_string` writes at least one digit |
| ShaderUniforms.CheckType | Violet/Rendering/Shader.cpp:390-398 | access passes exactly when scalar and shape both match; a scalar mismatch is a `domain_error`, a shape mismatch a `runtime_error` |
| ShaderUniforms.Element | Violet/Rendering/Shader.cpp:423-431 | element `i` exists exactly when `i` is below the array size and sits `i` strides past the uniform's offset; past the end is a `domain_error` |
| ShaderUniforms.ElementsEvenlySpaced | Violet/Rendering/Shader.cpp:423-431 | element `i` is `i` strides past element 0 |
| ShaderUniforms.PlainUniformHasOneElement | Violet/Rendering/Shader.cpp:423-431 | a plain uniform has only element 0, which is itself |
| UniformBlocks.StrLessOrder | Violet/Rendering/Uniform.cpp:64-68 | string `<` is irreflexive and transitive, and exactly one of `<`, `==`, `>` holds |
| UniformBlocks.LocationIgnored | Violet/Rendering/Uniform.cpp:58-68 | two uniforms differing only in location are equal, and neither is less than the other |
| UniformBlocks.UniformOrder | Violet/Rendering/Uniform.cpp:58-68 | uniform `<` is a strict order on (name, type, size, offset, stride), and exactly one of `<`, `==`, `>` holds |
| UniformBlocks.UniformsOrder | Violet/Rendering/Uniform.cpp:70-78 | the lexicographic order on uniform vectors is a strict order, and exactly one of `<`, `==`, `>` holds |
| UniformBlocks.BlockOrder | Violet/Rendering/Uniform.cpp:70-78 | block `<` on (byte size, name, uniforms) is a strict order, and exactly one of `<`, `==`, `>` holds |
| UniformBlocks.Member | Violet/Rendering/Uniform.cpp:80-86 | the first uniform with that name, which the caller guarantees exists |
| UniformBlocks.BlockNamed | Violet/Rendering/Uniform.cpp:88-94 | the first block with that name, which the caller guarantees exists |
| UniformBlocks.InBlockExactly | Violet/Rendering/Uniform.cpp:26-49 | a uniform outside every block is in none of them; every other uniform is listed in its own block |
| UniformBlocks.DoQuery | Violet/Rendering/Uniform.cpp:6-52 | one block per active block, named without the terminator and sized as reported, holding exactly its uniforms in query order |
| UniformBlocks.Splice | Violet/Rendering/Uniform.cpp:153-156 | copying in leaves the length and every position outside the copied range unchanged |
| UniformBlocks.Read | Violet/Rendering/Uniform.cpp:141-144 | copying out gives the `n` floats from the offset on |
| UniformBlocks.AssignThenConvert | Violet/Rendering/Uniform.cpp:135-158 | assigning a value and reading the same uniform back gives the value |
| UniformBlocks.AssignKeepsOthers | Violet/Rendering/Uniform.cpp:135-158 | assigning one uniform leaves what a disjoint uniform reads unchanged |
| UniformBlocks.UboStorage.constructor | Violet/Rendering/Uniform.cpp:101-111 | the CPU copy is `byte_size` zeroed floats |
| UniformBlocks.UboStorage.Uploaded | Violet/Rendering/Uniform.cpp:122-126 | `Sync` uploads `storage.size()` bytes, which is the first quarter of the float vector |
| UniformBlocks.UboStorage.Assign | Violet/Rendering/Uniform.cpp:148-158 | as written, the value is copied in at float index equal to the uniform's byte offset |
| UniformBlocks.UboStorage.Convert | Violet/Rendering/Uniform.cpp:135-146 | as written, the value is read from float index equal to the uniform's byte offset |
| UniformBlocks.UboStorage.AssignIntended | Violet/Rendering/Uniform.cpp:148-158 | the copy goes in at float index `offset / 4`, where the byte offset places the uniform |
| UniformBlocks.IntendedAssignUploaded | Violet/Rendering/Uniform.cpp:122-158 | with the intended index, a value whose bytes lie inside the block is in the uploaded bytes |
| UniformBlocks.ByteOffsetMissesUpload | Violet/Rendering/Uniform.cpp:122-158 | as written, a `mat4` at byte offset 64 of a 128-byte block lands past the 32 uploaded floats, so the GPU never sees it |
| Framebuffer.GlBind | Violet/Rendering/FBO.cpp:130 | `glBindFramebuffer` with `GL_FRAMEBUFFER` sets both context bindings, with a read or draw target only that one; the program's belief is untouched |
| Framebuffer.Bind | Violet/Rendering/FBO.cpp:127-141 | binding saves and replaces the believed draw framebuffer unless the target is read-only, and the believed read framebuffer unless it is draw-only |
| Framebuffer.Release | Violet/Rendering/FBO.cpp:143-155 | as written, the destructor restores the believed bindings the target covers and leaves the other |
| Framebuffer.ReleaseIntended | Violet/Rendering/FBO.cpp:143-155 | each saved framebuffer is restored, believed and in the context, on its own target; the other binding is left alone |
| Framebuffer.BindTracks | Violet/Rendering/FBO.cpp:127-141 | binding keeps belief and context in step |
| Framebuffer.BindReleaseRestoresTracked | Violet/Rendering/FBO.cpp:127-155 | destroying a binding object restores the believed bindings it saved, whatever its target |
| Framebuffer.ReleaseTracksIff | Violet/Rendering/FBO.cpp:143-155 | as written, a read or draw binding object keeps belief and context in step; a `GL_FRAMEBUFFER` one does exactly when its two saved framebuffers are the same |
| Framebuffer.SplitBindingRestoredWrongly | Violet/Rendering/FBO.cpp:143-155 | reading from 1, then binding 2 to both and destroying that object leaves the program believing 0 is bound for drawing while the context draws to 1 |
| Framebuffer.BindReleaseIntendedRestores | Violet/Rendering/FBO.cpp:127-155 | with the intended destructor, bind and release give back exactly the bindings from before, believed and actual |
| Framebuffer.ReleaseIntendedTracks | Violet/Rendering/FBO.cpp:143-155 | with the intended destructor, every release keeps belief and context in step |
| Framebuffer.NestedIntendedRestores | Violet/Rendering/FBO.cpp:127-155 | nested scopes unwound in order restore the bindings from before |
| Framebuffer.FramebufferContext.constructor | Violet/Rendering/FBO.cpp:124-125 | nothing is bound and belief matches the context |
| Framebuffer.FramebufferContext.BindFbo | Violet/Rendering/FBO.cpp:23-26 | `FBO::Bind` makes the binding object `Bind` describes |
| Framebuffer.FramebufferContext.Unbind | Violet/Rendering/FBO.cpp:143-155 | the binding object's destructor as written: the context and the program's belief become what `Release` gives, both saved framebuffers bound with the object's own target |
| Framebuffer.FramebufferContext.UnbindIntended | Violet/Rendering/FBO.cpp:143-155 | the corrected destructor: the bindings become what `ReleaseIntended` gives, each saved framebuffer bound to its own target |
| Framebuffer.ColorAttachments | Violet/Rendering/FBO.cpp:39-47 | colour attachment `i` holds texture `i`, and nothing outside the first `n` attachments is set |
| Framebuffer.Iota | Violet/Rendering/FBO.cpp:49-51 | the draw buffers are `COLOR_ATTACHMENT0` upwards, one per texture |
| Framebuffer.FirstMismatch | Violet/Rendering/FBO.cpp:40-44 | the first texture whose dimensions differ, every one before it matching |
| Framebuffer.Fbo.constructor | Violet/Rendering/FBO.cpp:7-10 | a new framebuffer has nothing attached |
| Framebuffer.Fbo.Move | Violet/Rendering/FBO.cpp:12-16 | the handle moves and the source is left with 0 |
| Framebuffer.Fbo.AttachTexes | Violet/Rendering/FBO.cpp:28-52 | the first texture sets the dimensions; a zero-sized one throws before anything is attached; otherwise textures are attached in turn until one differs in size, which throws, and when all are attached they become the draw buffers |
| Framebuffer.Fbo.AttachDepthTex | Violet/Rendering/FBO.cpp:54-64 | a depth texture replaces any depth renderbuffer and sets the dimensions |
| Framebuffer.Fbo.AttachDepthBuffer | Violet/Rendering/FBO.cpp:66-73 | a depth renderbuffer replaces any depth texture |
| Framebuffer.AttachColors | Violet/Rendering/FBO.cpp:39-47 | the attaching loop attaches texture `k` at colour attachment `k` up to the first mismatch and reports where it stopped |
| Framebuffer.AttachStep | Violet/Rendering/FBO.cpp:45-46 | attaching texture `k` extends the attachments of the first `k` |
| Framebuffer.MismatchAt | Violet/Rendering/FBO.cpp:40-44 | the first mismatch is at `k` when everything before matches and `ts[k]` does not |
| Framebuffer.CheckStatus | Violet/Rendering/FBO.cpp:75-92 | each listed incomplete status throws `logic_error` with its name, 0 throws "Other framebuffer error", and exactly the other statuses pass |
| Framebuffer.CheckStatusCases | Violet/Rendering/FBO.cpp:75-92 | a complete framebuffer passes and every listed incomplete status is reported |
| VertexArray.Bind | Violet/Rendering/VAO.cpp:28-36 | the binding saves the believed array; `next` becomes current, and a bind call is issued only when it was not current already |
| VertexArray.Release | Violet/Rendering/VAO.cpp:38-45 | the saved array becomes current again, with a bind call only when it is not current already |
| VertexArray.BindReleaseTrack | Violet/Rendering/VAO.cpp:28-45 | binding and releasing keep belief and context in step |
| VertexArray.ScopeRestores | Violet/Rendering/VAO.cpp:28-45 | a binding scope leaves the bound array as it found it, issuing no call when `next` was already bound and otherwise exactly a bind of `next` and a bind back |
| VertexArray.NestedScopesRestore | Violet/Rendering/VAO.cpp:28-45 | nested scopes restore in last-in, first-out order |
| VertexArray.VaoContext.constructor | Violet/Rendering/VAO.cpp:26 | the static current array starts at 0, in step with the context |
| VertexArray.VaoContext.BindVao | Violet/Rendering/VAO.cpp:28-36 | constructing a binding does what `Bind` describes |
| VertexArray.VaoContext.Unbind | Violet/Rendering/VAO.cpp:38-45 | destroying a binding does what `Release` describes |
| VertexArray.VaoResource.constructor | Violet/Rendering/VAO.hpp:66-80 | the resource constructor, with the handles the driver generates given as arguments: the resource holds its handles and index count |
| VertexArray.VaoResource.Move | Violet/Rendering/VAO.cpp:8-17 | the move takes both handles and the count, and leaves the source holding handle 0 for both |
| CacheFreshness.CacheIsFresh | Violet/File/Filesystem.cpp:331-352 | a missing cache is stale; a present cache with a missing source is fresh; otherwise fresh exactly when modified strictly later; any other `stat` failure throws naming the path |
| CacheFreshness.FreshnessMonotone | Violet/File/Filesystem.cpp:331-352 | deleting the source keeps a cache fresh, and a cache is fresh against a present source exactly when it is strictly newer |
| CacheFreshness.TieGreaterIsTicksGreater | Violet/File/Filesystem.cpp:192-193 | comparing the two 32-bit halves lexicographically is comparing the 64-bit write times |
| CacheFreshness.CacheIsFreshWin | Violet/File/Filesystem.cpp:163-194 | the same rule on Windows, with `FindFirstFile` and its error codes, comparing the write times half by half |
| CacheFreshness.PortsAgree | Violet/File/Filesystem.cpp:163-352 | the two ports throw in the same cases and otherwise give the same verdict |
| CacheFreshness.MappedFile.constructor | Violet/File/Filesystem.cpp:256-258 | nothing is mapped and errors throw |
| CacheFreshness.MappedFile.Close | Violet/File/Filesystem.cpp:319-329 | closing a file with no mapping does nothing; otherwise the mapping is dropped, and a failing `munmap` throws only when the file is set to throw |
| Objects.SentinelValues | Violet/Object.cpp:21-22 | `invalid` is `uint32_t(-1)`, `none` is `uint32_t(-2)`, and they differ |
| Objects.Allocate | Violet/Object.cpp:8-14 | construction throws `logic_error("Object::Init not called")` exactly when the counter holds the invalid id; otherwise the object takes the counter's value and the counter advances by one without wrapping |
| Objects.AllocateMany | Violet/Object.cpp:8-14 | `k` successful constructions give `k` objects and leave a 32-bit counter |
| Objects.AllocateConsecutive | Violet/Object.cpp:8-24 | from counter `n`, `k` constructions succeed exactly when `n + k` does not pass the invalid id, and give the ids `n` to `n + k - 1` |
| Objects.IdCounter.constructor | Violet/Object.cpp:24 | before `Init` the counter holds the invalid id |
| Objects.IdCounter.Init | Violet/Object.cpp:16-19 | `Init` continues from the persistent store's next object id |
| Objects.IdCounter.NewObject | Violet/Object.cpp:8-14 | `Object()` does what `Allocate` describes to the counter |
| Objects.ObjectName.constructor | Violet/Object.cpp:30-34 | the name table starts empty |
| Objects.ObjectName.Lookup | Violet/Object.cpp:41-51 | a stored name gives its object and changes nothing; an unknown name gets a newly constructed object, which is stored under it, or the construction's error |
| Objects.ObjectName.NameOf | Violet/Object.cpp:36-39 | a name stored for the object |
| Objects.ObjectName.Rename | Violet/Object.cpp:53-56 | the name now stores the object, replacing whatever it held |
| Objects.NamesOf | Violet/Object.cpp:36-39 | exactly the names that store the object |
| Objects.RenameEffect | Violet/Object.cpp:53-56 | after a rename the name gives the object, every other name keeps its object, and the object's old names still answer for it |
| Editor.Tick | Violet/Editor/Edit.cpp:20-43 | holding or not touching the button changes nothing; on the press edge the pick is focused, clicking the selection deselects it (telling the move tool to remove it unless it was none), clicking another editable object selects it (telling the tool to add it), and anything else keeps the selection; on the release edge focus returns to the selection; the editable set never changes |
| Editor.SelectionChangesToEditable | Violet/Editor/Edit.cpp:20-43 | a selection that a tick changes becomes none or an editable object |
| Editor.ReleasedFocusIsSelection | Violet/Editor/Edit.cpp:38-43 | once the button is released, focus and selection agree |
| Editor.ClickTwiceToggles | Violet/Editor/Edit.cpp:20-43 | pressing, releasing and pressing on an editable unselected object selects and then deselects it, telling the tool to add and then remove it |
| Editor.SelectingAnotherKeepsPrevious | Violet/Editor/Edit.cpp:29-34 | selecting another object only adds it: the previous selection is not removed from the move tool |
| Editor.Edit.constructor | Violet/Editor/Edit.cpp:5-10 | nothing is editable, focus is none, the button is up, and the selection is a freshly constructed object |
| Editor.Edit.Editable | Violet/Editor/Edit.cpp:12-15 | the object joins the editable set and nothing else changes |
| Editor.Edit.PhysTick | Violet/Editor/Edit.cpp:17-47 | the state and the tool operations are what `Tick` gives, and the pick, focus and selection are highlighted |

## Left out
- Process spawning, the MD5 digest and file I/O in `make.py` are parameters: preprocessing, compiling and linking are oracle results and the digest is an opaque value; the pickle file is a value read and written whole.
- BuildDriver.RunBuild: the exit status of the final link is not inspected, because `make.py` does not inspect it (the run reports success whatever the link does).
- OpenGL calls are modelled as recorded state (the bound framebuffer for each target, the bound vertex array, uploaded buffer contents); the driver itself is not modelled.
- LZF compression is an abstract pair of functions passed as parameters; only the framing around it is modelled.
- SQLite is not modelled: statement text is built exactly, and the result code of each step is a parameter.
- Floating point is modelled with `real` (vertex data, uniform values, the interpolation factor `alpha`); rounding is not modelled.
- LMap.OrderedMap.Erase: modelled with the index semantics the comments of `l_map::erase` describe, because the erase as written assigns through `const` pair members and does not compile.
- LMap.OrderedMap.TryEmplace: models the evident logic of `l_map::try_emplace`, which cannot be instantiated as written: the index entries are `const` pairs (`l_map.hpp:24`), so `++ind.second` writes through a `const` member; the key is passed to `piecewise_construct` bare where a tuple is needed; and `Comparer::operator()`, used by `find_ind`, is private. The corresponding row under Findings is about that evident logic.
- The `RECUR_TT` and `FREE_TT` alternatives of `tuple_tree` are disabled by the preprocessor and are not modelled.
- FixedStep.Time.MainLoop: the loop that never returns is modelled over a finite sequence of clock readings, one frame per reading; the rendering callback is left out and the clock period is taken as one nanosecond.
- Resource.Cache: `MakeShared`, `FindResource` and `FindOrMake` work on one shared map, so the newer and older `Resource` templates share that class; weak-pointer expiry is the `alive` set.
- ZipBuf.ZipBuf: the reset of the put pointer that replacing a `stringbuf`'s contents implies is not modelled; the put area is the bytes not yet framed, and `underlying()` and `pubsync` are not modelled.
- BlobFile: `BlobFile.cpp` and `BlobFile.hpp` disagree on member names (the stream member and the end-of-file check); the model works on the byte stream both describe.
- CacheFreshness: file times come from `stat` results passed as parameters; opening and mapping a file (`MappedFile::Open`) and directory iteration are not modelled, and neither is the Windows error helper, which calls itself.
- Framebuffer.Fbo: the binding objects made inside `AttachTexes`, `AttachDepth` and `CheckStatus` bind and unbind within the call and are not recorded in the framebuffer's state.
- UniformBlocks: `Uniform.cpp` never queries a uniform's location, and the `location` field is left uninitialised; the model gives it the value 0. `UBO::Proxy::operator uint32_t` is not modelled.
- PixelDraw: text and textured quads (`DrawChar`, `DrawQuad`) and the drawing done in `EndFrame` are not modelled; only what each frame records is.
- Editor.Edit.PhysTick: the tool's own `Update` and the camera rotation (quaternion arithmetic) are not modelled; picking is a parameter.
- ZipBuf.ZipBuf.Underflow: without an underlying stream the source calls `sgetn` through a null pointer, which is undefined; the model reads the next block from the source bytes whether or not a stream is present.
- BinTree: `1 << height` and `1 << (height - 1)` in the constructor (BinTree.hpp lines 79, 87 and 100) are `int` shifts, which overflow (undefined behaviour) for heights of 31 or more; `BinTree.Pow2` is unbounded, so the model does not capture that limit.
- LegacyBinTree.LegacyTree.Leaf: requires `it >= inner.size() / 2`; for a smaller iterator the source's unsigned subtraction wraps to a huge leaf index, which the model does not capture.
- Bytes and BlobFile: `Write<T>` copies the value's bytes from host memory; the model fixes little-endian order, so it assumes a little-endian host.
- Layout.LayoutStack.PutSpace: `Layout.cpp` calls `getNext()` without the direction its signature requires, so that call does not compile as written; the model takes the direction as a parameter.
- Layout: the model follows `Layout.cpp`; the later layout that `Layout.hpp` declares (fill and grow directions, `PutSpace(int advance)`, `EnsureWidth`, `Inset`, grids) is not modelled.
- Objects: the id counter is a field of an explicit counter object rather than a static variable.

## Findings
| source | as written | input that shows it | evidently intended | confidence | as-written member | corrected member |
|---|---|---|---|---|---|---|
| Violet/Permavector.hpp:102-123 | the unsigned sentinel `INVALID_IND` (the largest index) takes part in the renumbering: `emplace` increments it to 0, `erase` decrements it | two free slots, empty store, `emplace(begin(), x)`: both slots then name `x`; erasing position 0 with a free slot leaves a slot that is neither free nor valid | free slots are skipped by the renumbering | not executed | Permavector.EmplaceRevivesFreeSlot | Permavector.EmplaceIntendedKeepsHandles |
| Violet/Containers/l_map.hpp:104-110 | `try_emplace` shifts only the entries strictly after the insertion position (the code as a whole does not compile; this is its evident logic) | map `{1: a}`, insert key 0 at `begin()`: key 1's entry names position 0, which holds key 0 | shift every entry at or after the insertion position | not executed | LMap.TryEmplaceMisindexes | LMap.TryEmplaceIntendedKeepsIndex |
| Violet/Containers/tuple_tree.hpp:350-360 | when the key is missing from a group, the recursion descends into the children of the element at the end of that group, which belong to the next group | a tree holding (1, 10, 100) and (2, 20, 200), then `emplace(1, 30, 300)`: 300 joins the children of 20, and the middle level's groups start at 0, 2, 1 | descend into an empty child range at the end of the group's own children | not executed | TupleTree.EmplaceAsWrittenBreaksGrouping | TupleTree.Emplace |
| Violet/Containers/BinTree.hpp:121-126 | `Height` is the least `h` with `2^h >= nodes.size()` | a tree built with height 1 has one node, and `Height()` gives 0 | the least `h` with `2^h - 1 >= nodes.size()` | not executed | BinTree.Tree.Height | BinTree.Tree.HeightIntended |
| Violet/Utils/ZipBuf.cpp:40-47 | `sync` loops while bytes are buffered, calling `write_some(0)`, which returns 0 without a stream | a buffer holding one byte and no underlying stream: the loop never ends | fail when there is no stream | not executed | ZipBuf.SyncSpinsWithoutStream | ZipBuf.ZipBuf.SyncIntended |
| Violet/Utils/ZipBuf.cpp:100-116 | an uncompressed block's payload is read without checking how many bytes arrived | the stream `2, 0, 0, 0, 7` gives a two-byte block whose second byte is stale stack memory | a short payload is end of file | not executed | ZipBuf.TruncatedBlockAccepted | ZipBuf.DeframeChecked |
| Violet/Wavefront.cpp:46-83 | `while (obj) { obj >> letter; ... }` tests the stream before the read, so a failed read at the end repeats the last record | a file ending in a `v` line yields that vertex twice | `while (obj >> letter)` | not executed | Wavefront.LastVertexTwice | Wavefront.ReadRecordsIntended |
| Violet/Rendering/Uniform.cpp:148-158 | the value is copied to float index `offset`, where `offset` counts bytes | a `mat4` at byte offset 64 of a 128-byte block lands at floats 64 to 79, past the 32 floats uploaded | copy to float index `offset / 4` | not executed | UniformBlocks.ByteOffsetMissesUpload | UniformBlocks.IntendedAssignUploaded |
| Violet/Rendering/FBO.cpp:143-155 | for `GL_FRAMEBUFFER` the destructor binds both saved values to `GL_FRAMEBUFFER`, so the read value overwrites the draw binding | read bound to 1, then bind 2 to both and destroy that object: the program believes 0 is bound for drawing while 1 is | bind each saved value to its own target | not executed | Framebuffer.SplitBindingRestoredWrongly | Framebuffer.BindReleaseIntendedRestores |
