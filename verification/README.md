# KtChord ring, modelled in Dafny

KtChord is a small consistent-hashing ring written in Python (`ktchord.py`). A
`ChordNetwork` keeps a list of `Node`s sorted by id. Each node has an id, a
successor and a key store. Joining a node (`add_node`) appends it, re-sorts the
list, rewires every successor and re-partitions all stored keys. `insert_key`
stores a key on the first node in list order whose id is at least the key. When
no id is that large, the key wraps around to the first node.

The model is functional. A network is a `seq<Node<V>>` (`Ring.Network`). A node
is a datatype with an `id: int`, a `successor: Option<nat>` and a
`keys: map<int, V>`. The successor is held as a position in the list, not as a
reference. It is `None` until the network wires it. Every operation returns a
new network.

Modules:

- `Wrappers` holds `Option` and `Result`.
- `Ring` holds the node record, the ownership rule, successor wiring and
  `get_node`.
- `NodeSort` holds the stable sort by id.
- `Keys` holds `insert_key`, the merged key contents and `redistribute_keys`.
- `Chord` holds `add_node` and the network invariant.
- `Scenarios` holds the demonstration at the bottom of `ktchord.py` and a
  duplicate-id run.

Choices made:

- **Integers compared linearly.** Ids and keys are plain `int`s compared with
  `<=`. `ktchord.py` has no 2^m identifier circle.
- **Duplicate ids modelled as in the source.** `add_node` never checks for
  them. Python's sort is stable, so a new node with an existing id lands
  after the nodes that already carry it. `insert_key` and `get_node` take the
  first match. As a result the later duplicate is never returned by
  `get_node` and never receives a key (`Ring.ShadowedDuplicateOwnsNothing`,
  `Scenarios.DuplicateIdScenario`).
- **Empty network.** `insert_key` on an empty network raises in Python,
  because it indexes `nodes[0]`. The model returns `Err(EmptyRing)`.
  `redistribute_keys` on an empty network does nothing.
- **Order of re-insertion.** `redistribute_keys` re-inserts the merged pairs
  in dictionary order. The model's loop picks the next key arbitrarily
  (`:|`), so its contract holds for every order, including Python's.

The invariant `Chord.Valid` holds of every network built from the empty one
by `add_node` and `insert_key`. It says three things:

- the ids are sorted;
- the successors are wired;
- every stored key sits on its owner, so each key is on exactly one node.

## Model

| member | source | states |
|---|---|---|
| Ring.FirstAtLeast | ktchord.py:40-43 | The scan's result is the first position at or after the start whose id is at least the key; no result means every id from the start on is smaller. |
| Ring.Owner | ktchord.py:39-45 | The owner is the first position whose id is at least the key, or position 0 when no id is that large. It is the only position satisfying that rule. |
| Ring.OwnerIsSmallestIdAtLeastKey | ktchord.py:39-45 | On a sorted ring the owner's id is the smallest id at least the key. When there is none, the owner is position 0, which carries the minimum id. |
| Ring.OwnerArc | ktchord.py:39-45 | On a sorted ring a position owns a key exactly when the key lies above the previous node's id and at most its own. Position 0 also owns every key above the largest id (both directions). |
| Ring.ShadowedDuplicateOwnsNothing | ktchord.py:40-43 | A node preceded in the list by a node with the same id is never chosen as owner. |
| Ring.Next | ktchord.py:36 | `(i + 1) % n` is `i + 1`, except for the last position, which wraps to 0. |
| Ring.UpdateSuccessors | ktchord.py:33-36 | Each node's successor becomes the next position, and the last node's becomes the first. Ids, stores and length are unchanged. |
| Ring.SuccessorIsNextClockwise | ktchord.py:33-36 | With distinct sorted ids, a node's successor is the node that owns the key one above its id: the next node clockwise. |
| Ring.IndexOf | ktchord.py:26-30 | The result is the first position from the start whose node has the id; no result means no node from the start on has it. |
| Ring.GetNode | ktchord.py:26-30 | The result is `None` exactly when no node has the id. Otherwise it is the first node in list order with that id. |
| NodeSort.InsertPos | ktchord.py:19-20 | The insertion point lies just after an element whose id is at most the new id, and before elements with larger ids only. |
| NodeSort.InsertById | ktchord.py:19-20 | Inserting adds exactly one node (as a multiset, also of ids) and keeps a sorted list sorted. |
| NodeSort.SortById | ktchord.py:20 | The sort returns a permutation of its input, as a multiset of nodes and of ids, sorted ascending by id. |
| NodeSort.SortSortedIsIdentity | ktchord.py:20 | Sorting a list already sorted by id returns it unchanged. |
| NodeSort.SortAfterAppend | ktchord.py:19-20 | Appending to a sorted list and sorting places the new node after every node of smaller or equal id and before every node of larger id. |
| Keys.InsertKey | ktchord.py:39-45 | Fails exactly on an empty network. Otherwise the returned position owns the key, and the owner's store gains the pair, overwriting an older value. Every other node is unchanged. |
| Keys.Collect | ktchord.py:49-51 | The merge of every node's store in list order, a later node overriding an earlier one. It has no `ensures` of its own; `Keys.CollectKeys`, `Keys.LastHolder` and `Keys.CollectValues` state what it holds. |
| Keys.ClearKeys | ktchord.py:50-52 | Emptying every store keeps the length, and on a non-empty network leaves each node as it was except for its store, which is the (empty) share of nothing. |
| Keys.CollectKeys | ktchord.py:49-51 | The merged dictionary holds exactly the keys stored on some node. |
| Keys.LastHolder | ktchord.py:49-51 | For a merged key, the returned position is the last node in list order that stores it, and the merged value is that node's value. |
| Keys.CollectValues | ktchord.py:49-51 | Each merged value is the value of the last node in list order that stores the key. |
| Keys.CollectDisjoint | ktchord.py:49-51 | When no key sits on two nodes, the merged dictionary holds every node's pairs unchanged. |
| Keys.CollectAppend | ktchord.py:49-51 | Merging a concatenation merges the two parts, the later part winning. |
| Keys.CollectOfSameStores | ktchord.py:49-51 | The merged dictionary depends only on the stores, not on ids or successors. |
| Keys.CollectKeysOfPermutation | ktchord.py:49-51 | Reordering the nodes keeps the set of merged keys. |
| Keys.StoreOne | ktchord.py:53-54 | One `insert_key` on a network holding the owners' shares of some pairs yields the shares of those pairs plus the inserted one. |
| Keys.RedistributeKeys | ktchord.py:48-54 | After redistribution every merged pair sits on its owner and nowhere else, whatever order the keys are re-inserted in. Ids and successors are kept, every key is owned, and the merged contents are unchanged. |
| Keys.RedistributedProperties | ktchord.py:48-54 | Re-partitioning keeps ids and successors, leaves every key on its owner, and neither loses nor changes any merged pair. |
| Keys.RedistributedOwned | ktchord.py:48-54 | Re-partitioning keeps the ids and leaves every key on its owner. |
| Keys.RedistributedContents | ktchord.py:48-54 | Re-partitioning neither loses, adds nor changes a merged pair. |
| Keys.RedistributeKeepsPairs | ktchord.py:48-54 | If each key sat on at most one node before, each pair afterwards sits on its key's owner with the same value. |
| Keys.RedistributeInventsNothing | ktchord.py:48-54 | Every pair a node stores afterwards was stored, with that value, on some node before. |
| Keys.OwnedIsFixedPoint | ktchord.py:48-54 | A network whose keys all sit on their owners is left unchanged by re-partitioning. |
| Keys.RedistributeIdempotent | ktchord.py:48-54 | Running `redistribute_keys` a second time changes nothing. |
| Keys.OwnedIsDisjoint | ktchord.py:39-45 | When every key sits on its owner, no key sits on two nodes. |
| Keys.OwnedCollect | ktchord.py:39-45 | When every key sits on its owner, a key is merged exactly when its owner stores it, and with the owner's value. |
| Keys.InsertKeyKeepsOwned | ktchord.py:39-45 | On a network whose keys all sit on their owners, `insert_key` keeps that true and changes the merged contents at exactly the inserted key. |
| Keys.OwnedStoreContents | ktchord.py:41-44 | Storing a pair on its key's owner, in a network whose keys all sit on their owners, changes the merged contents at exactly that key. |
| Chord.EmptyNetwork | ktchord.py:13-14 | A new network satisfies the network invariant. |
| Chord.AppendAndSort | ktchord.py:17-20 | Appending and sorting yields a sorted list with the keyless new node at the returned position and the stored keys kept. On a sorted network the new id is spliced in after the ids at most it and before the larger ones. |
| Chord.SortOfAppend | ktchord.py:18-20 | Sorting after an append puts the appended node exactly at the point where it would be inserted into the sorted rest. |
| Chord.JoinKeepsKeys | ktchord.py:18-20 | Appending a keyless node and sorting keeps the set of stored keys. |
| Chord.JoinKeepsContents | ktchord.py:18-20 | On a sorted network, appending a keyless node and sorting keeps the merged contents exactly. |
| Chord.CollectSkipsKeyless | ktchord.py:18-19 | A node with an empty store contributes nothing to the merged contents. |
| Chord.AddNode | ktchord.py:17-23 | The network grows by one node carrying the given id, returned by position. The result is sorted, wired and has every key on its owner, with the stored keys preserved. On a sorted network the id is spliced in place and the merged contents are unchanged. |
| Chord.InsertKeyKeepsValid | ktchord.py:39-45 | `insert_key` keeps the network invariant and adds exactly the inserted pair to the merged contents. |
| Scenarios.DemoJoins | ktchord.py:67-68 | Joining 1, 5, 9 and 12 into an empty network gives the sorted ids 1, 5, 9, 12 with empty stores. |
| Scenarios.DemoOwners | ktchord.py:73-75 | On ids 1, 5, 9, 12, keys 2, 7, 10 and 14 are owned by positions 1, 2, 3 and 0. |
| Scenarios.DemoScenario | ktchord.py:73-76 | Keys 2, 7, 10 and 14 are placed on nodes 5, 9, 12 and 1, with 14 wrapping around. `get_node` finds node 9 and finds nothing for id 7. |
| Scenarios.DuplicateIdScenario | ktchord.py:17-45 | A second node with id 5 is placed after the first. `get_node(5)` returns the first, and a key inserted afterwards goes to the first while the second stays empty. |

## Left out

- `print_nodes` and the printing in the `__main__` block (ktchord.py:57-79) are console output only. The demonstration's joins and inserts are modelled in `Scenarios`.
- `Node.__str__` is output formatting only.
- test.py is not part of this model. It (test.py:4-31) calls an interface that `ktchord.py` does not define: a constructor with `m` and `replication`, `store_key`, `route_lookup`, `remove_node`, `print_data_distribution`, `print_statistics` and `visualize`.
- Python object identity is not modelled. The successor is a position in the list rather than a reference, and `add_node` returns the position of the new node rather than the object.
- Python dictionary insertion order is not modelled. Ownership depends only on the key and the ids, and the re-insertion loop is proved correct for every order.
- Ids and keys are `int`; Python would compare any mutually ordered values.
- NodeSort.SortById: stability is built into the definition, which inserts each element after the earlier elements of equal id, but it is not stated as a separate property. Only "sorted permutation" and "identity on sorted input" are proved.
- Chord.AddNode: on a network whose list is not sorted by id, only the set of stored keys is promised to survive. Such a network cannot be built through the class. The sort may reorder two nodes that carry the same key, which changes which value the merge keeps.
