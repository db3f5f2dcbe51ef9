/**
 Concrete runs of the network: the demonstration at the bottom of
 ktchord.py (without its printing), and a join with a duplicate id.
 */
module Scenarios {
  import opened Wrappers
  import opened Ring
  import opened Keys
  import opened Chord

  /** A network whose merged contents are empty stores nothing anywhere. */
  lemma NothingCollectedNothingStored<V>(ring: Network<V>)
    requires Collect(ring) == map[]
    ensures forall i :: 0 <= i < |ring| ==> ring[i].keys == map[]
  {
    CollectKeys(ring);
    forall i | 0 <= i < |ring| ensures ring[i].keys == map[] {
      assert forall k :: k in ring[i].keys ==> HeldBy(ring, k, i);
    }
  }

  /** A node whose id exceeds every id of a sorted ring joins at the end. */
  lemma JoinAboveAll(before: seq<int>, after: seq<int>, id: int, pos: nat)
    requires pos <= |before|
    requires after == before[..pos] + [id] + before[pos..]
    requires pos < |before| ==> id < before[pos]
    requires forall j :: 0 <= j < |before| ==> before[j] < id
    ensures after == before + [id]
  {
    assert pos == |before|;
    assert before[..pos] == before;
  }

  /** The joins of the demonstration: nodes 1, 5, 9 and 12, in that order. */
  method DemoJoins() returns (ring: Network<string>)
    ensures Valid(ring) && Ids(ring) == [1, 5, 9, 12]
    ensures forall i :: 0 <= i < |ring| ==> ring[i].keys == map[]
  {
    ring := EmptyNetwork();
    var before, pos;
    before := ring;
    ring, pos := AddNode(ring, 1);
    JoinAboveAll(Ids(before), Ids(ring), 1, pos);
    before := ring;
    ring, pos := AddNode(ring, 5);
    JoinAboveAll(Ids(before), Ids(ring), 5, pos);
    before := ring;
    ring, pos := AddNode(ring, 9);
    JoinAboveAll(Ids(before), Ids(ring), 9, pos);
    before := ring;
    ring, pos := AddNode(ring, 12);
    JoinAboveAll(Ids(before), Ids(ring), 12, pos);
    NothingCollectedNothingStored(ring);
  }

  /** The owners the demonstration's keys map to on the ring 1, 5, 9, 12. */
  lemma DemoOwners()
    ensures Owner([1, 5, 9, 12], 2) == 1 && Owner([1, 5, 9, 12], 7) == 2
    ensures Owner([1, 5, 9, 12], 10) == 3 && Owner([1, 5, 9, 12], 14) == 0
  {
    assert OwnsKey([1, 5, 9, 12], 2, 1);
    assert OwnsKey([1, 5, 9, 12], 7, 2);
    assert OwnsKey([1, 5, 9, 12], 10, 3);
    assert OwnsKey([1, 5, 9, 12], 14, 0);
  }

  /** The demonstration: after the joins, keys 2, 7, 10 and 14 are inserted
      and land on nodes 5, 9, 12 and 1, key 14 wrapping around to the
      smallest id. */
  method DemoScenario() returns (ring: Network<string>, owners: seq<int>)
    ensures Ids(ring) == [1, 5, 9, 12]
    ensures owners == [5, 9, 12, 1]
    ensures ring[0].keys == map[14 := "D"] && ring[1].keys == map[2 := "A"]
    ensures ring[2].keys == map[7 := "B"] && ring[3].keys == map[10 := "C"]
    ensures GetNode(ring, 9) == Some(ring[2]) && GetNode(ring, 7) == None
  {
    ring := DemoJoins();
    var ids := Ids(ring);
    DemoOwners();
    owners := [];
    var placed := InsertKey(ring, 2, "A").value;
    ring, owners := placed.ring, owners + [placed.ring[placed.owner].id];
    assert Ids(ring) == ids;
    placed := InsertKey(ring, 7, "B").value;
    ring, owners := placed.ring, owners + [placed.ring[placed.owner].id];
    assert Ids(ring) == ids;
    placed := InsertKey(ring, 10, "C").value;
    ring, owners := placed.ring, owners + [placed.ring[placed.owner].id];
    assert Ids(ring) == ids;
    placed := InsertKey(ring, 14, "D").value;
    ring, owners := placed.ring, owners + [placed.ring[placed.owner].id];
    assert Ids(ring) == ids;
  }

  /** A second node with id 5 joins after the first one; the first match
      wins, so lookups return the older node and keys never reach the newer. */
  method DuplicateIdScenario() returns (ring: Network<string>, second: nat, owner: nat)
    ensures Ids(ring) == [5, 5] && second == 1
    ensures GetNode(ring, 5) == Some(ring[0])
    ensures owner == 0 && ring[0].keys == map[3 := "A"] && ring[1].keys == map[]
  {
    ring := EmptyNetwork();
    var first;
    ring, first := AddNode(ring, 5);
    ring, second := AddNode(ring, 5);
    NothingCollectedNothingStored(ring);
    var placed := InsertKey(ring, 3, "A").value;
    ring, owner := placed.ring, placed.owner;
  }
}
