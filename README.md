# PPMap: a partially persistent linked-list map, in Dafny

`ppmap.cpp` implements `PPMap<K, V>`, a key-ordered singly linked list used as
a map. It is *partially persistent*: every `add` creates a new version, and
`search(key, version)` can query any version. The list is built from
"fat nodes", and each node has:

- a key, a base value and a base successor;
- a back pointer to its predecessor, which is not versioned;
- two append-only modification logs, one for the value and one for the
  successor.

Each log entry says "from this version on the field holds this". The two logs
share a combined capacity of two entries. A node absorbs updates in place until
it is full. After that, an update copies it (`makeNew`) with the logs folded
into the copy's base fields. The new copy is spliced in by updating the
predecessor's successor, reached through the back pointer. That update can
cascade further towards the head. A sparse index `head_` maps versions to
head nodes, and `search` uses the entry with the greatest version at or
below the one searched.

The model has five modules:

- `FatNode` (`fat_node.dfy`): the node, the log entry, and reading a field
  as of a version.
  - `Project` and `LeadingRun` state what a read returns.
  - The loops of `getValue`/`getNext` (`Replay`) and of `makeNew`
    (`MakeNew`) are proved against them.
- `Arena` (`arena.dfy`): the node heap as a sequence of nodes, where a
  pointer is an index and NULL is `None`. It also holds the update protocol
  of `updateVal`/`updateNext` and the rebuild cascade, stated as functions
  from the arena before a call to the arena after it (`UpdateValSpec`,
  `UpdateNextSpec`, `Splice`). The lemmas about them cover:
  - in-place update versus rebuild;
  - the capacity bound;
  - new log entries appear only at the current version (`Extends`);
  - the past is frozen (`ExtendsFreezesPast`).
- `MapSpec` (`map_spec.dfy`): the whole map as a value, with `add`
  (`AddSpec`) and `search` (`SearchSpec`) as functions of it, and its
  invariant (`ValidState`), which every `add` keeps. Its main results are:
  - historical immutability: no `add` (`AddKeepsHistory`), and no sequence
    of adds (`AddAllKeepsHistory`), changes a search at an existing version;
  - the head-index discipline (`AddHeadIndex`, `AddNewHead`);
  - the lost head update (`AddToFullHeadIsLost`).
- `PersistentMap` (`ppmap.dfy`): the class `PPMap` with the fields
  `nodes`, `head` and `version`. It has imperative methods for `add`,
  `search`, `updateVal`, `updateNext` and the walk loops. Each method is
  proved to leave exactly the state that the corresponding specification
  function gives, or to return the value it gives.
- `Scenarios` (`scenarios.dfy`): concrete runs of `add` and `search` worked
  out on the model.

Keys and values are `int`. The default value `V()` is 0.

Two behaviours of the code are modelled as written, and the lemmas make both
visible:

- **The rebuilt head is dropped.** Suppose the head node is full and has no
  predecessor. Rebuilding it creates a copy that no node points at, and the
  copy is never recorded in `head_`. When the add updates the head's own
  value (ppmap.cpp:80-85), the update is lost: the new version reads what
  the previous one read (`MapSpec.AddToFullHeadIsLost`,
  `Scenarios.LostHeadUpdate`). When the add inserts after the head
  (ppmap.cpp:93-98), the copy and the link it carries are dropped, but the
  walk goes on from the old successor (ppmap.cpp:135) and can still append
  the key at the tail, where the new version sees it. The fat-node technique
  records a rebuilt head as the head of the new version; this code does
  not, and the model follows the code.
- **Duplicate tail node.** After inserting between `curr` and `next`, the
  loop of `add` goes on from the old `next` (ppmap.cpp:135). The
  `next == NULL` test at ppmap.cpp:128 does not compare keys, so the tail
  node then gets a second node with the same key after it
  (`Scenarios.DuplicateTail`: keys 0, 1, 2, 1 after adding 0, 2, 1). The
  model follows the code.

The code does not establish that successor chains are acyclic, and the model
does not prove it either. So the rebuild cascade and both walks take a step
bound (fuel):

- the walks of `add` and `search` take the arena size at the call;
- the cascade of an insertion takes the arena size after the new node is
  linked;
- the cascade of `updateVal` takes the arena size at the call.

`MapSpec.SearchFuelSuffices` proves that on nodes closed under the chain,
any larger bound gives the same result. On a cyclic chain the model would
return 0 when the bound runs out, where the loop at ppmap.cpp:141-146 would
not return at all.

## Model

| member | source | states |
|---|---|---|
| FatNode.LeadingRun | ppmap.cpp:48-52 | the replay loop stops at the first entry newer than the version read; every entry before that point is at most that version |
| FatNode.Replay | ppmap.cpp:46-64 | the loop of getValue/getNext returns the base field if no leading entry is at most the version, else the newVal of the last entry in the leading run |
| FatNode.GetValue | ppmap.cpp:46-54 | getValue(v) is the value field projected at v |
| FatNode.GetNext | ppmap.cpp:56-64 | getNext(v) is the next field projected at v |
| FatNode.ValueAt | ppmap.cpp:46-54 | the value as of a version, defined as the projection of the value log; ProjectSorted and ProjectLogged characterise it |
| FatNode.NextAt | ppmap.cpp:56-64 | the successor as of a version, the projection of the next log; characterised by the same lemmas |
| FatNode.Project | ppmap.cpp:46-64 | the read loop of getValue/getNext: reading the log from the front and stopping at the first entry newer than v, a read gives the base field when no entry was read, else the newVal of the last entry read (LeadingRun gives that run's length; Replay is proved equal to it) |
| FatNode.ProjectLogged | ppmap.cpp:46-64 | a read at v is the base field or the newVal of some entry whose version is at most v |
| FatNode.Full | ppmap.cpp:101-103 | full() tests that the two logs together hold 2 entries; a node within capacity that is not full has room for at least one more push |
| FatNode.Flatten | ppmap.cpp:66-73 | the copy keeps key and back pointer, has empty logs, and at every version reads the fully applied value and next of the original |
| FatNode.ProjectSorted | ppmap.cpp:46-64 | on a log ordered by version, a read at v gives the base field when every entry is newer than v, else the entry that is the last one at most v |
| FatNode.ProjectNewerSuffix | ppmap.cpp:48-51 | appending entries newer than v leaves every read at v unchanged |
| FatNode.ProjectPushed | ppmap.cpp:75-78 | an entry pushed at version ver onto a log whose entries are at most ver is what every version from ver on reads |
| FatNode.ProjectCurrent | ppmap.cpp:66-73 | once no entry is newer than v, a read at v gives the field with the whole log applied, which is what makeNew folds in |
| FatNode.MakeNew | ppmap.cpp:66-73 | the copy has the same key and back pointer, the last logged value and next (or the base fields if a log is empty), and empty logs |
| FatNode.FlattenIsSnapshot | ppmap.cpp:66-73 | the copy reads, at every version, what the original reads at the current version |
| Arena.Link | ppmap.cpp:82-83 | allocating a node appends exactly that node; its successor's back pointer becomes the new node; no other node changes |
| Arena.UpdateValSpec | ppmap.cpp:75-86 | updateVal keeps every pointer of the arena inside it and never removes a node |
| Arena.UpdateNextSpec | ppmap.cpp:88-99 | updateNext keeps every pointer of the arena inside it and never removes a node |
| Arena.Splice | ppmap.cpp:80-85 | the rebuild tail of updateVal/updateNext allocates exactly one node more, plus whatever the cascade adds |
| Arena.UpdateValInPlace | ppmap.cpp:76-78 | on a node that is not full: no other node changes; the node changes only in its value log; versions from ver on read the new value and earlier versions read the old one |
| Arena.UpdateNextInPlace | ppmap.cpp:89-91 | the same for updateNext and the next log |
| Arena.UpdateValRebuild | ppmap.cpp:80-85 | on a full node: the node keeps its key, base fields and logs; a copy with the same key is appended, holding the new value at every version and taking the node's current successor |
| Arena.UpdateNextRebuild | ppmap.cpp:93-98 | on a full node with cascade fuel left: the node is untouched except its back pointer; the copy has the same key, the new successor and the node's current value |
| Arena.SpliceLinks | ppmap.cpp:82-85 | without a predecessor the rebuild is just the allocation of the copy; a predecessor that is not full points at the copy at every version from ver on; the copy's successor always ends up pointing back at the copy |
| Arena.UpdateNextBacks | ppmap.cpp:88-99 | the cascade of updateNext changes the back pointer of no old node except the new successor's |
| Arena.SpliceBacks | ppmap.cpp:82-85 | the splice sets the back of the copy's successor to the copy, whatever the cascade does, and changes no other old back pointer |
| Arena.UpdateValOrphan | ppmap.cpp:84-85 | a rebuild with no predecessor appends a copy and otherwise changes only back pointers |
| Arena.UpdateValPreserves | ppmap.cpp:75-86 | updateVal only appends nodes and log entries at ver, changes no key or base field, and keeps every node within the capacity of 2 |
| Arena.UpdateNextPreserves | ppmap.cpp:88-103 | the updateNext cascade only appends nodes and log entries at ver, leaves every value log alone, and keeps every node within the capacity of 2 |
| Arena.SplicePreserves | ppmap.cpp:93-98 | the same for the splice of a copy, whose key, value and next survive the cascade |
| Arena.FullNodeKeepsLogs | ppmap.cpp:101-103 | a full node never gets another log entry while the capacity bound holds |
| Arena.ExtendsFreezesPast | ppmap.cpp:77 | after any update at version ver, every old node has the same key, and reads the same value and next at every version before ver |
| Arena.ExtendsByLinking | ppmap.cpp:116-117 | allocating a node with empty logs and pointing its successor back at it changes no old node except that back pointer |
| MapSpec.Empty | ppmap.cpp:158-160 | the map starts with no nodes, no head and version 0, and satisfies the invariant |
| MapSpec.Floor | ppmap.cpp:149-152 | getHead's lookup picks the greatest version of the head index that is at most v |
| MapSpec.HeadAt | ppmap.cpp:149-152 | the head of version v is recorded at a head version at most v that no other head version at most v exceeds |
| MapSpec.SearchFrom | ppmap.cpp:141-146 | the walk of search, bounded by fuel; SearchFromFinds states what it returns |
| MapSpec.SearchFromFinds | ppmap.cpp:141-146 | the walk returns the default 0, or the value at v of some node whose key is the key searched |
| MapSpec.SearchSpec | ppmap.cpp:139-147 | search(key, v) returns 0 or the value at v of a node keyed key |
| MapSpec.Insert | ppmap.cpp:128-133 | the insertion keeps the arena well formed and allocates at least one node; InsertAppends states the node it appends |
| MapSpec.InsertAppends | ppmap.cpp:129-132 | whether or not curr is full, the appended node has the key, the value and the successor next |
| MapSpec.AddWalk | ppmap.cpp:122-136 | the loop of add keeps every pointer inside the arena and never removes a node |
| MapSpec.InsertLinks | ppmap.cpp:128-133 | inserting after a node that is not full appends new node(key, value, next, curr); next points back at it; curr points at it from the new version on and at its old successor before; no other node changes |
| MapSpec.InsertPreserves | ppmap.cpp:128-133 | the insertion only extends the arena at the new version and keeps the capacity bound |
| MapSpec.AddWalkPreserves | ppmap.cpp:122-136 | the whole loop of add only extends the arena at the new version and keeps the capacity bound |
| MapSpec.AddSpec | ppmap.cpp:107-137 | add advances the version by one, keeps the map's invariant, and only extends the arena with entries at the new version |
| MapSpec.AddAll | ppmap.cpp:107-108 | a sequence of n adds keeps the invariant and advances the version by n |
| MapSpec.AddHeadIndex | ppmap.cpp:108-119 | add keeps every head entry and writes one only at the new version, exactly when the map was empty or the key sorts before the current head's key |
| MapSpec.AddNewHead | ppmap.cpp:114-119 | a new head has no predecessor and points at the old head; the old head's back pointer becomes the new head |
| MapSpec.SearchHitsHead | ppmap.cpp:140-143 | a search whose key is held by the head of its version returns that head's value at that version |
| MapSpec.FreshHeadFound | ppmap.cpp:140-143 | a node with an empty value log recorded as the head of the current version is found by search under its key, with its own value |
| MapSpec.AddToEmptyVisible | ppmap.cpp:109-111 | the first add makes the new version find the value under its key |
| MapSpec.NewHeadVisible | ppmap.cpp:114-119 | an add whose key sorts before the current head makes the new version find the value under its key |
| MapSpec.HeadInPlaceVisible | ppmap.cpp:122-125 | an add of the key held by a current head that is not full makes the new version find the new value |
| MapSpec.HeadAtNextVersion | ppmap.cpp:114 | the head used by add at the new version is the head of the current version |
| MapSpec.FloorAgree | ppmap.cpp:149-152 | two head indices that agree up to v give the same head at v |
| MapSpec.SearchFromAgree | ppmap.cpp:141-146 | two arenas that look the same node for node give the same search |
| MapSpec.SearchFuelSuffices | ppmap.cpp:141-146 | on nodes closed under the chain, a step bound beyond their number never changes a search |
| MapSpec.AddKeepsHistory | ppmap.cpp:107-147 | historical immutability: an add changes no search at any existing version |
| MapSpec.AddAllKeepsHistory | ppmap.cpp:107-147 | any sequence of adds changes no search at any existing version |
| MapSpec.AddToFullHeadIsLost | ppmap.cpp:80-85 | adding a key held by a full head without predecessor leaves every search at the new version equal to the previous version's: the update is lost |
| PersistentMap.PPMap.constructor | ppmap.cpp:158-160 | a new map is the empty state |
| PersistentMap.PPMap.CurrVersion | ppmap.cpp:154-156 | the current version is 0 exactly while the map is empty |
| PersistentMap.PPMap.GetHead | ppmap.cpp:149-152 | getHead(v) is MapSpec.HeadAt of the head index, and names a node of the arena |
| PersistentMap.PPMap.UpdateVal | ppmap.cpp:75-86 | updateVal changes the arena exactly as UpdateValSpec says, and nothing else |
| PersistentMap.PPMap.UpdateNext | ppmap.cpp:88-99 | updateNext changes the arena exactly as UpdateNextSpec says, and nothing else |
| PersistentMap.PPMap.LinkNode | ppmap.cpp:82-83 | allocation of a node plus the back pointer of its successor |
| PersistentMap.PPMap.Splice | ppmap.cpp:80-85 | the rebuild tail changes the arena exactly as Arena.Splice says |
| PersistentMap.PPMap.InsertAfter | ppmap.cpp:129-132 | the insertion of add changes the arena exactly as Insert says |
| PersistentMap.PPMap.WalkFrom | ppmap.cpp:122-136 | the loop of add changes the arena exactly as AddWalk says |
| PersistentMap.PPMap.Add | ppmap.cpp:107-137 | add leaves the state AddSpec gives, keeps the invariant and advances currVersion by one |
| PersistentMap.PPMap.Search | ppmap.cpp:139-147 | search returns what SearchSpec gives, given a head entry at or before v |
| Scenarios.TwoStep2 | ppmap.cpp:107-136 | add(1, 10) then add(2, 20) lead to the states Two1 and Two2 |
| Scenarios.TwoAddsFirst | ppmap.cpp:139-147 | in that state, version 1 finds 10 under key 1 and the default 0 under key 2 |
| Scenarios.TwoAddsSecond | ppmap.cpp:139-147 | version 2 finds 10 under key 1 and 20 under key 2 |
| Scenarios.ChainWalk3 | ppmap.cpp:121-136 | the loop of add(1, 1) from the head inserts after key 0, walks on to the old successor keyed 2 and appends a second node keyed 1 after it |
| Scenarios.ChainStep3 | ppmap.cpp:122-136 | add(1, 1) after add(0, 0) and add(2, 2) inserts twice: once in the middle and once after the tail |
| Scenarios.DuplicateTail | ppmap.cpp:128-135 | the chain of that third version holds keys 0, 1, 2, 1, and search still finds key 1's value |
| Scenarios.LostRun | ppmap.cpp:80-85 | the fourth add of key 0 to a full head only appends an unreachable copy |
| Scenarios.LostHeadUpdate | ppmap.cpp:84-85 | version 4 then still reads the value written at version 3 |

## Left out

- `main` (ppmap.cpp:163-186) is a demo driver that prints with `std::cout`. Its output is not modelled. `Scenarios` works out smaller runs of the same kind instead.
- Heap allocation with `new` is modelled as appending to the arena, and pointer identity as the node's index. Nodes are never freed, so nothing is lost by this.
- The key and value types are fixed to `int`, and `V()` is 0. Where the code needs order, it uses only `<`, `>` and `==` on keys.
- `version_` is an `unsigned int` with no initialiser. The model starts it at 0 and keeps it unbounded, so its wrap-around after 2^32 - 1 adds is not modelled.
- `std::map::upper_bound` followed by `--` is modelled as "the greatest version at most v" (`Floor`). When no such entry exists, the code's decrement of `begin()` is undefined, so `Search` requires such an entry.
- PersistentMap.PPMap.UpdateNext: the cascade through back pointers is bounded by fuel, because the code does not establish that chains are acyclic. With fuel 0 at a full node, the model stops where the code would recurse further.
- PersistentMap.PPMap.WalkFrom: the loop of `add` is bounded by the arena size at the call. On a cyclic chain the code would not terminate; the model stops.
- PersistentMap.PPMap.Search: the walk is bounded by the arena size. `MapSpec.SearchFuelSuffices` shows that a larger bound gives the same result. On a cyclic chain the model returns 0 when the bound runs out, where the code does not return.
- The node copy constructor (ppmap.cpp:40-44) is not used by the code and is not modelled.
- The code does not keep the chain sorted or free of duplicates under arbitrary insertion orders (see `Scenarios.DuplicateTail`), so no sortedness invariant is claimed.
- Last-writer-wins is proved only for three cases: the first add (`MapSpec.AddToEmptyVisible`), an add that makes a new head (`MapSpec.NewHeadVisible`), and an in-place update of the current head (`MapSpec.HeadInPlaceVisible`). It is not proved for insertions and updates further down the chain. It fails when the add updates the value of a current head that is full and has no predecessor (`MapSpec.AddToFullHeadIsLost`).
