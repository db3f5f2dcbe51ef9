/**
 Ring membership of a KtChord network: the `Node` record, the ownership rule
 that `insert_key` applies, successor wiring and lookup of a node by id.

 Identifiers and keys are plain integers compared linearly; there is no
 identifier circle of size 2^m. Duplicate ids are allowed, as in the source:
 wherever the source scans the node list, the first match wins.
 */
module Ring {
  import opened Wrappers

  /** A ring member. `successor` is the position of the next node in the
      network's list (the source keeps a reference to that node); it is
      `None` until the network wires it. `keys` is the node's store. */
  datatype Node<V> = Node(id: int, successor: Option<nat>, keys: map<int, V>)

  /** The state of a `ChordNetwork`: its list of nodes. */
  type Network<V> = seq<Node<V>>

  /** The ids of the nodes, in list order. */
  function Ids<V>(ring: Network<V>): (r: seq<int>)
    ensures |r| == |ring|
    ensures forall i :: 0 <= i < |ring| ==> r[i] == ring[i].id
  {
    seq(|ring|, i requires 0 <= i < |ring| => ring[i].id)
  }

  /** Ascending order, duplicates allowed. */
  predicate Sorted(ids: seq<int>)
  {
    forall i, j :: 0 <= i < j < |ids| ==> ids[i] <= ids[j]
  }

  predicate Distinct(ids: seq<int>)
  {
    forall i, j :: 0 <= i < j < |ids| ==> ids[i] != ids[j]
  }

  // ---------------------------------------------------------------------
  // Ownership
  // ---------------------------------------------------------------------

  /** Reference definition of the ownership rule: position `i` owns `key`
      when it is the first position whose id is at least `key`, or, when no
      id is at least `key`, when it is the first position (wrap-around). */
  predicate OwnsKey(ids: seq<int>, key: int, i: int)
  {
    && 0 <= i < |ids|
    && ((key <= ids[i] && forall j :: 0 <= j < i ==> ids[j] < key)
        || (i == 0 && forall j :: 0 <= j < |ids| ==> ids[j] < key))
  }

  /** The scan of `insert_key`: the first position at or after `from` whose
      id is at least `key`, if there is one. */
  function FirstAtLeast(ids: seq<int>, key: int, from: nat): (r: Option<nat>)
    requires from <= |ids|
    ensures r.Some? ==> from <= r.value < |ids| && key <= ids[r.value]
    ensures r.Some? ==> forall j :: from <= j < r.value ==> ids[j] < key
    ensures r.None? ==> forall j :: from <= j < |ids| ==> ids[j] < key
    decreases |ids| - from
  {
    if from == |ids| then None
    else if key <= ids[from] then Some(from)
    else FirstAtLeast(ids, key, from + 1)
  }

  /** The position of the node that `insert_key` stores `key` on. */
  function Owner(ids: seq<int>, key: int): (r: nat)
    requires |ids| > 0
    ensures OwnsKey(ids, key, r)
    ensures forall i :: OwnsKey(ids, key, i) ==> i == r
  {
    match FirstAtLeast(ids, key, 0)
    case Some(i) => i
    case None => 0
  }

  /** On a sorted ring the owner's id is the smallest id at least `key`, and
      when there is none the owner is a node of minimum id. */
  lemma OwnerIsSmallestIdAtLeastKey(ids: seq<int>, key: int)
    requires |ids| > 0 && Sorted(ids)
    ensures var o := Owner(ids, key);
      forall j :: 0 <= j < |ids| && key <= ids[j] ==> key <= ids[o] <= ids[j]
    ensures var o := Owner(ids, key);
      (forall j :: 0 <= j < |ids| ==> ids[j] < key) ==>
        o == 0 && forall j :: 0 <= j < |ids| ==> ids[o] <= ids[j]
  {
  }

  /** The arc a node is responsible for on a sorted ring: the keys above its
      predecessor's id and up to its own, the first node also taking every
      key above the largest id. */
  predicate InArc(ids: seq<int>, key: int, i: int)
    requires 0 <= i < |ids|
  {
    if i > 0 then ids[i - 1] < key <= ids[i]
    else key <= ids[0] || ids[|ids| - 1] < key
  }

  /** On a sorted ring a position owns exactly the keys in its arc. */
  lemma {:induction false} OwnerArc(ids: seq<int>, key: int, i: int)
    requires Sorted(ids) && 0 <= i < |ids|
    ensures Owner(ids, key) == i <==> InArc(ids, key, i)
  {
    var o := Owner(ids, key);
    if InArc(ids, key, i) {
      if i > 0 {
        assert forall j :: 0 <= j < i ==> ids[j] <= ids[i - 1];
        assert OwnsKey(ids, key, i);
      } else if key <= ids[0] {
        assert OwnsKey(ids, key, 0);
      } else {
        assert forall j :: 0 <= j < |ids| ==> ids[j] <= ids[|ids| - 1];
        assert OwnsKey(ids, key, 0);
      }
    }
    if o == i && i > 0 {
      assert ids[i - 1] < key;
    }
  }

  /** A node preceded by another node of the same id never owns a key: the
      earlier duplicate shadows it. */
  lemma ShadowedDuplicateOwnsNothing(ids: seq<int>, key: int, i: nat, j: nat)
    requires i < j < |ids| && ids[i] == ids[j]
    ensures Owner(ids, key) != j
  {
  }

  // ---------------------------------------------------------------------
  // Successor wiring
  // ---------------------------------------------------------------------

  /** The position after `i` in a list of `n` nodes, as `(i + 1) % n`. */
  function Next(i: nat, n: nat): (r: nat)
    requires i < n
    ensures i + 1 < n ==> r == i + 1
    ensures i + 1 == n ==> r == 0
  {
    (i + 1) % n
  }

  /** Every node's successor is the next position, the last wrapping to the first. */
  predicate Wired<V>(ring: Network<V>)
  {
    forall i :: 0 <= i < |ring| ==> ring[i].successor == Some(Next(i, |ring|))
  }

  /** `update_successors`: point each node at the next one in list order. */
  function UpdateSuccessors<V>(ring: Network<V>): (r: Network<V>)
    ensures |r| == |ring| && Wired(r)
    ensures forall i :: 0 <= i < |r| ==> r[i].id == ring[i].id && r[i].keys == ring[i].keys
    ensures forall i :: 0 <= i < |r| - 1 ==> r[i].successor == Some(i + 1)
    ensures |r| > 0 ==> r[|r| - 1].successor == Some(0)
  {
    seq(|ring|, i requires 0 <= i < |ring| => ring[i].(successor := Some(Next(i, |ring|))))
  }

  /** With distinct sorted ids a node's successor is the node that owns the
      key just above its own id: the next node clockwise on the ring. */
  lemma {:induction false} SuccessorIsNextClockwise<V>(ring: Network<V>, i: nat)
    requires Wired(ring) && Sorted(Ids(ring)) && Distinct(Ids(ring))
    requires i < |ring|
    ensures ring[i].successor == Some(Owner(Ids(ring), ring[i].id + 1))
  {
    var ids := Ids(ring);
    if i + 1 < |ring| {
      assert ids[i] < ids[i + 1];
      assert OwnsKey(ids, ring[i].id + 1, i + 1);
    } else {
      assert OwnsKey(ids, ring[i].id + 1, 0);
    }
  }

  // ---------------------------------------------------------------------
  // Lookup by id
  // ---------------------------------------------------------------------

  /** The first position at or after `from` holding a node with id `id`. */
  function IndexOf<V>(ring: Network<V>, id: int, from: nat): (r: Option<nat>)
    requires from <= |ring|
    ensures r.Some? ==> from <= r.value < |ring| && ring[r.value].id == id
    ensures r.Some? ==> forall j :: from <= j < r.value ==> ring[j].id != id
    ensures r.None? ==> forall j :: from <= j < |ring| ==> ring[j].id != id
    decreases |ring| - from
  {
    if from == |ring| then None
    else if ring[from].id == id then Some(from)
    else IndexOf(ring, id, from + 1)
  }

  /** `get_node`: the first node with the given id, or `None`. */
  function GetNode<V>(ring: Network<V>, id: int): (r: Option<Node<V>>)
    ensures r.None? <==> forall i :: 0 <= i < |ring| ==> ring[i].id != id
    ensures r.Some? ==> exists i :: 0 <= i < |ring| && r.value == ring[i] && ring[i].id == id
                                     && forall j :: 0 <= j < i ==> ring[j].id != id
  {
    match IndexOf(ring, id, 0)
    case Some(i) => Some(ring[i])
    case None => None
  }
}
