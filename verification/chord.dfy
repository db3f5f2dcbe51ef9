/**
 The `ChordNetwork` class: joining a node (`add_node`) and the invariant that
 every network reachable through the class satisfies.
 */
module Chord {
  import opened Wrappers
  import opened Ring
  import opened NodeSort
  import opened Keys

  /** The node list of a new `ChordNetwork()`: empty. */
  function EmptyNetwork<V>(): (r: Network<V>)
    ensures Valid(r)
  {
    []
  }

  /** What holds of every network built by `add_node` and `insert_key`:
      nodes sorted by id, successors wired, every key on its owner. */
  ghost predicate Valid<V>(ring: Network<V>)
  {
    Sorted(Ids(ring)) && Wired(ring) && Owned(ring)
  }

  /** The first half of `add_node`: append a keyless node with the given id
      and sort the list by id. `pos` is where the new node ends up. */
  method AppendAndSort<V>(ring: Network<V>, id: int) returns (s: Network<V>, pos: nat)
    ensures |s| == |ring| + 1 && pos < |s|
    ensures s[pos] == Node(id, None, map[])
    ensures Sorted(Ids(s))
    ensures multiset(Ids(s)) == multiset(Ids(ring)) + multiset{id}
    ensures Collect(s).Keys == Collect(ring).Keys
    ensures Sorted(Ids(ring)) ==> Ids(s) == Ids(ring)[..pos] + [id] + Ids(ring)[pos..]
    ensures Sorted(Ids(ring)) ==> forall j :: 0 <= j < pos ==> ring[j].id <= id
    ensures Sorted(Ids(ring)) ==> forall j :: pos <= j < |ring| ==> id < ring[j].id
    ensures Sorted(Ids(ring)) ==> Collect(s) == Collect(ring)
  {
    var joining := Node(id, None, map[]);
    s := SortById(ring + [joining]);
    pos := InsertPos(SortById(ring), id);
    SortOfAppend(ring, joining);
    JoinKeepsKeys(ring, joining);
    JoinKeepsContents(ring, joining);
    if Sorted(Ids(ring)) {
      SortSortedIsIdentity(ring);
      SortAfterAppend(ring, joining);
      IdsOfSplice(ring, joining, pos);
    }
  }

  /** `add_node`: append a node with no keys, sort by id, rewire successors and
      re-partition the keys. `pos` is where the new node ends up (the source
      returns that node). */
  method AddNode<V>(ring: Network<V>, id: int) returns (r: Network<V>, pos: nat)
    ensures |r| == |ring| + 1 && pos < |r| && r[pos].id == id
    ensures Valid(r)
    ensures multiset(Ids(r)) == multiset(Ids(ring)) + multiset{id}
    ensures Collect(r).Keys == Collect(ring).Keys
    ensures Sorted(Ids(ring)) ==> Ids(r) == Ids(ring)[..pos] + [id] + Ids(ring)[pos..]
    ensures Sorted(Ids(ring)) ==> forall j :: 0 <= j < pos ==> ring[j].id <= id
    ensures Sorted(Ids(ring)) ==> forall j :: pos <= j < |ring| ==> id < ring[j].id
    ensures Sorted(Ids(ring)) ==> Collect(r) == Collect(ring)
  {
    var sorted;
    sorted, pos := AppendAndSort(ring, id);
    var wired := UpdateSuccessors(sorted);
    CollectOfSameStores(sorted, wired);
    assert Ids(wired) == Ids(sorted);
    r := RedistributeKeys(wired);
    RedistributedProperties(wired, r);
  }

  /** Sorting after an append is one insertion step into the sorted rest,
      which puts the appended node at the insertion point. */
  lemma SortOfAppend<V>(ring: Network<V>, n: Node<V>)
    ensures InsertPos(SortById(ring), n.id) < |SortById(ring + [n])|
    ensures SortById(ring + [n])[InsertPos(SortById(ring), n.id)] == n
  {
    assert (ring + [n])[..|ring|] == ring;
    assert SortById(ring + [n]) == InsertById(SortById(ring), n);
  }

  /** Appending a keyless node and sorting keeps the set of stored keys. */
  lemma JoinKeepsKeys<V>(ring: Network<V>, n: Node<V>)
    requires n.keys == map[]
    ensures Collect(SortById(ring + [n])).Keys == Collect(ring).Keys
  {
    CollectKeysOfPermutation(SortById(ring + [n]), ring + [n]);
    CollectAppend(ring, [n]);
    assert Collect([n]) == map[];
  }

  /** On a sorted ring, appending a keyless node and sorting keeps the merged
      contents exactly. */
  lemma JoinKeepsContents<V>(ring: Network<V>, n: Node<V>)
    requires n.keys == map[]
    ensures Sorted(Ids(ring)) ==> Collect(SortById(ring + [n])) == Collect(ring)
  {
    if Sorted(Ids(ring)) {
      var p := InsertPos(ring, n.id);
      assert ring[..p] + ring[p..] == ring;
      SortAfterAppend(ring, n);
      CollectSkipsKeyless(ring[..p], n, ring[p..]);
    }
  }

  /** A node without keys adds nothing to the merged contents. */
  lemma CollectSkipsKeyless<V>(a: Network<V>, n: Node<V>, b: Network<V>)
    requires n.keys == map[]
    ensures Collect(a + [n] + b) == Collect(a + b)
  {
    var left := a + [n];
    assert Collect([n]) == map[];
    CollectAppend(a, [n]);
    assert Collect(left) == Collect(a);
    CollectAppend(left, b);
    CollectAppend(a, b);
  }

  /** `insert_key` keeps a network valid and adds exactly the stored pair. */
  lemma InsertKeyKeepsValid<V>(ring: Network<V>, key: int, value: V)
    requires Valid(ring) && |ring| > 0
    ensures var p := InsertKey(ring, key, value).value;
      Valid(p.ring) && Collect(p.ring) == Collect(ring)[key := value]
  {
    InsertKeyKeepsOwned(ring, key, value);
    var p := InsertKey(ring, key, value).value;
    forall i | 0 <= i < |ring| ensures p.ring[i].successor == ring[i].successor {
    }
  }
}
