# rust-triemap in Dafny

A model of `TrieMap<K, V>` from `src/lib.rs`: a map keyed by sequences of
ordered units, stored as a trie whose nodes live in one growable arena and are
named by their position in it.

- The container holds a root-level branching table as two parallel vectors.
  `keys` holds the units in sorted order, and `links` holds the arena index each
  unit leads to. It also holds the arena `data` and a counter `length`.
- Each arena `Node` has its own sorted `keys`/`links` table, an optional
  `parent` index (`None` for nodes hanging off the root table) and an optional
  value.
- `insert` descends one unit at a time, binary-searching each table. On a miss
  it splices a (unit, new index) pair into the table at the position the search
  reports and pushes an empty node onto the arena. At the last node it bumps
  `length` if there was no value, then stores the value.
- `get` performs the same descent without changes.
- `remove` and `append` are stubs: the first always answers `None`, the second
  does nothing.

## How the model is organised

- `options.dfy` (`Options`): the `Option` type.
- `tables.dfy` (`Tables`): one branching table.
  - Its invariant is `TableOk`: equal lengths and strictly increasing units.
  - Its meaning is `Child`, the table read as a map from unit to link.
  - `Vec::insert` is modelled as `InsertAt`.
  - `slice::binary_search` is modelled as the method `BinarySearch`, with its
    `Ok(i)`/`Err(i)` outcomes as `Found(i)`/`Missing(i)`.
- `arena.dfy` (`Arena`): the `Node` datatype, `Node::new` and the invariant
  `Wf` that a `TrieMap` keeps. It is stated on plain values, with lemmas showing
  that each state change of `insert` preserves it. `Wf` says:
  - the root table and every node's table are well formed;
  - every link is inside the arena, and the node it leads to has the path of
    its table extended by the entry's unit;
  - the ghost `paths` (node to key sequence) and `index` (key sequence to node)
    are inverse to each other, so no two nodes share a path;
  - each node's `parent` is `None` exactly for the root table's children, and
    otherwise names the node one unit up, whose table leads back to it;
  - each node's value is what the abstract map `contents` holds under its
    path, and every stored key has a node;
  - `length` equals both the size of `contents` and the number of nodes that
    hold a value.
- `triemap.dfy` (`TrieMaps`): the class `TrieMap<V>`.
  - The fields `keys`, `links`, `data` and `length` come from the source.
  - The ghost fields `paths`, `index` and `Contents` give the abstract view.
  - `insert` is split along the source's own structure: `InsertRoot` handles
    the first unit, `InsertStep` is one pass of the `while let` loop,
    `AddRootChild` and `AddChild` are the two `Err(i)` branches, and `Store`
    is the final value update.
  - `Lookup` specifies what `get` answers.
- `scenarios.dfy` (`Scenarios`): the unit tests `trie_insert` and `trie_get`,
  plus a few one-line scenarios for the behaviours below.

The key unit type `K` is `int`. The unit tests' `u8` bytes are their character
codes, so `'0'` is 48. A stored `Rc<V>` is a plain `V`.

`get` only sets its found flag inside the loop over the units after the first
(src/lib.rs:104-106, 116). So a key of exactly one unit reads as absent even
after it was inserted. An exact-match map would answer the stored value there;
the model follows the code. `Get` ensures
`r == Lookup(Contents, key)`, and `Lookup` is `None` for keys shorter than two
units. The `trie_get` test queries `"100"`, i.e. the bytes `[49, 48, 48]`, and
the model uses that key.

## Model

| member | source | states |
|---|---|---|
| Tables.BinarySearch | src/lib.rs:66-68 | On a sorted table: `Found(i)` gives a position holding the unit. `Missing(i)` means the unit is absent and `i` is the one position where every unit before is smaller and every unit from it on is larger. |
| Tables.InsertAt | src/lib.rs:69 | `Vec::insert(i, x)`: the result is one longer, `x` sits at `i`, elements before `i` are unchanged and elements after it are shifted by one. |
| Tables.Child | src/lib.rs:67 | The table read as a map: a unit has a link exactly when it is among the table's units, and the link is one of the table's links. |
| Tables.ChildAt | src/lib.rs:67 | In a well-formed table the unit at position `i` leads to `links[i]`, so following `Ok(i)` is the map lookup. |
| Tables.ChildInsert | src/lib.rs:69-72 | Splicing (u, l) into both vectors at the same position adds exactly u -> l to the map and leaves every other unit's link as it was. |
| Tables.InsertKeepsSorted | src/lib.rs:68-69 | Inserting at the `Err(i)` position keeps the units strictly increasing. |
| Arena.NewNode | src/lib.rs:24-31 | `Node::new`: the given parent and value and an empty table, which is well formed. |
| Arena.ValueCountUpdate | src/lib.rs:90-93 | Replacing one node changes the count of nodes with a value by exactly the difference between the old and new node. |
| Arena.ValueCountAppend | src/lib.rs:71 | Pushing a node raises the count of nodes with a value by one if it has a value, otherwise not at all. |
| Arena.AbsentAtRoot | src/lib.rs:101-122 | A unit missing from the root table means no node, hence no stored key, has that one unit as its path. |
| Arena.AbsentBelow | src/lib.rs:107-112 | A unit missing from node `n`'s table means no node has the path of `n` extended by that unit. |
| Arena.PrefixClosed | src/lib.rs:107-112 | Every non-empty prefix of a path that has a node also has a node, so a miss at any depth means the whole key is absent. |
| Arena.IndexAfterPush | src/lib.rs:71-73 | Pushing a node with a path no node had keeps `index` the exact inverse of `paths`. |
| Arena.RootAfterInsert | src/lib.rs:68-73 | After the root miss branch, the root table is still well formed and every root entry leads to a node whose path is its unit. |
| Arena.NodesAfterGrow | src/lib.rs:80-86 | After the miss branch below the root, every node's table is still well formed and every entry still leads to a node one unit further down. |
| Arena.ParentsAfterRootInsert | src/lib.rs:70-72 | After the root miss branch, every node's parent field still names the node whose table leads to it. The new node's `None` parent matches the root table's new entry. |
| Arena.ParentsAfterGrow | src/lib.rs:82-85 | After the miss branch below the root, every parent field is still correct. The new node's parent `Some(n)` is the node whose table now leads to it. |
| Arena.ValuesAfterSet | src/lib.rs:93 | Setting node `n`'s value matches storing that value under `n`'s path in the abstract map, and no other key changes. |
| Arena.SizeAfterSet | src/lib.rs:90-92 | Storing under a key the map lacks adds one to its size; overwriting leaves the size alone. |
| Arena.AddRootChildKeepsWf | src/lib.rs:68-74 | The whole root miss branch keeps the invariant, with the abstract map and count unchanged. |
| Arena.AddChildKeepsWf | src/lib.rs:80-87 | The whole miss branch below the root keeps the invariant, with the abstract map and count unchanged. |
| Arena.SetValueKeepsWf | src/lib.rs:90-93 | The node held no value exactly when its path was not a stored key. Storing the value keeps the invariant for the updated map, with the count raised by one exactly in that case. |
| Arena.KeptAfterPush | src/lib.rs:71-73 | A push that changes at most the table of a node along the key leaves every earlier node at its index, with its path and parent, and untouched unless it lies along the key. |
| Arena.FreshAfterPush | src/lib.rs:70-71 | Nodes pushed during the descent lie along the key and carry no value. |
| Arena.FrameAfterSet | src/lib.rs:90-93 | Storing at the key's own node keeps those frame facts and leaves every new node valueless except the one at the key's end. |
| TrieMaps.LookupAfterInsert | src/lib.rs:93 | After storing `v` under a non-empty key `k`, `get(k)` answers `v` when `k` has two or more units, and every other key reads as before. |
| TrieMaps.LookupShortKey | src/lib.rs:104-116 | The empty key, and every one-unit key even when stored, read as absent. |
| TrieMaps.TrieMap.NewEmpty | src/lib.rs:50-57 | `new_empty`: all vectors empty, a zero count, an empty abstract map, and the invariant holds. |
| TrieMaps.TrieMap.Len | src/lib.rs:59-61 | `len` is the number of stored keys, and equally the number of arena nodes holding a value. |
| TrieMaps.TrieMap.Insert | src/lib.rs:63-95 | Keeps the invariant and stores `value` under `key`, or changes nothing for an empty key. `length` rises by one exactly for a new key. The arena only grows, by at most `|key|` nodes. Old nodes keep their index, path and parent, and only those along `key` change. New nodes lie along `key`, and only the last can hold a value. |
| TrieMaps.TrieMap.InsertRoot | src/lib.rs:65-75 | Reaches the node whose path is the key's first unit, pushing at most one node, with the map and count unchanged. |
| TrieMaps.TrieMap.InsertStep | src/lib.rs:77-89 | From the node of `key[..j]`, reaches the node of `key[..j+1]`, pushing at most one node and keeping the frame facts of the whole insertion. |
| TrieMaps.TrieMap.AddRootChild | src/lib.rs:68-74 | The root `Err(i)` branch: the unit and the new index are inserted at `i` in both root vectors, and an empty parentless node is pushed. The invariant holds and the map is unchanged. |
| TrieMaps.TrieMap.AddChild | src/lib.rs:80-87 | The `Err(i)` branch below the root: node `n`'s vectors gain the unit and the new position at `i`, and an empty node with parent `n` is pushed. The invariant holds and the map is unchanged. |
| TrieMaps.TrieMap.Store | src/lib.rs:90-93 | The count rises exactly when the node had no value, the node's value is set, and the abstract map is updated at the node's path. |
| TrieMaps.TrieMap.Get | src/lib.rs:97-127 | Answers the stored value for keys of two or more units and `None` otherwise, including for a one-unit key that is stored. It changes nothing. |
| TrieMaps.TrieMap.Remove | src/lib.rs:132-134 | The stub `remove`: always `None`, no state change. |
| TrieMaps.TrieMap.Append | src/lib.rs:129-131 | The stub `append`: neither map changes. |
| Scenarios.HoldsAfterInsert | src/lib.rs:161-163 | Inserting the padded key of `i` keeps every earlier padded key's value, so the ten insertions never overwrite each other. |
| Scenarios.FillTen | src/lib.rs:176-180 | After inserting the padded keys of 0..10 with their numbers, the map holds each of them with its number and `len() == 10`. |
| Scenarios.TrieInsert | src/lib.rs:157-167 | `trie_insert`: `len() == 10`. |
| Scenarios.TrieGet | src/lib.rs:171-187 | `trie_get`: `len() == 10`, `get("100")` is `None`, and `get` on each padded key gives `Some(i)`. |
| Scenarios.SingleUnitKey | src/lib.rs:104-116 | A stored one-unit key counts in `len()` but `get` on it answers `None`. |
| Scenarios.EmptyKey | src/lib.rs:65 | `insert` with an empty key leaves `len() == 0`, and `get` on it answers `None`. |
| Scenarios.Overwrite | src/lib.rs:90-93 | Inserting the same key twice counts it once and keeps the second value. |
| Scenarios.PrefixNotStored | src/lib.rs:116-117 | A strict prefix of a stored key has a node but no value, so `get` answers `None`. |

## Left out

- `Rc` sharing and pointer identity of the handles `get` returns. The stored `Rc<V>` is a plain `V`, so handles that outlive an overwrite are not modelled.
- The generic key bound `K: Eq + Ord + Clone`: the key unit is `int`, and the tests' bytes are their codes.
- `usize` arithmetic: `length` and arena positions are unbounded naturals, so overflow of `length += 1` or `data.len()` is not modelled.
- Panics from out-of-range indexing are not modelled as behaviour. The invariant proves that every index the source uses is in range.
- `slice::binary_search` internals: `BinarySearch` is a standard halving search proved against the library's documented contract. When several positions match, which one the library returns is not modelled; the tables are duplicate-free, so this never arises.
- Removal with pruning for `remove` and merging for `append`: the source implements neither, and the model keeps the stubs.
- The commented-out `walk` / `walk_r` traversal, the nightly feature flags, and `benches/triemap.rs`: the benchmark is timing and random key selection with no logic of its own. benches/triemap.rs is not part of this model.
- Scenarios.TrieGet: the test collects the (key, value) pairs in a vector before looking them up. The scenario looks up each padded key directly instead.
