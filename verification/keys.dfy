/**
 Key storage on a KtChord network: `insert_key`, which stores a key on its
 owner, and `redistribute_keys`, which gathers every stored pair and stores
 each one again under the ownership rule.
 */
module Keys {
  import opened Wrappers
  import opened Ring

  /** The only way `insert_key` can fail: it indexes `nodes[0]` of an empty list. */
  datatype RingError = EmptyRing

  /** What `insert_key` produces: the updated ring and the position of the
      node it stored the key on (the source returns that node). */
  datatype Placement<V> = Placement(ring: Network<V>, owner: nat)

  /** `insert_key`: store `value` under `key` on the node that owns `key`. */
  function InsertKey<V>(ring: Network<V>, key: int, value: V): (r: Result<Placement<V>, RingError>)
    ensures r.Err? <==> |ring| == 0
    ensures r.Ok? ==> OwnsKey(Ids(ring), key, r.value.owner)
    ensures r.Ok? ==> |r.value.ring| == |ring|
    ensures r.Ok? ==> var p := r.value;
      p.ring[p.owner] == ring[p.owner].(keys := ring[p.owner].keys[key := value])
    ensures r.Ok? ==> var p := r.value;
      forall i :: 0 <= i < |ring| && i != p.owner ==> p.ring[i] == ring[i]
  {
    if |ring| == 0 then Err(EmptyRing)
    else
      var o := Owner(Ids(ring), key);
      Ok(Placement(ring[o := ring[o].(keys := ring[o].keys[key := value])], o))
  }

  // ---------------------------------------------------------------------
  // The contents of the whole ring
  // ---------------------------------------------------------------------

  /** The `all_keys` dictionary of `redistribute_keys`: every node's store
      merged in list order, a later node's value winning over an earlier one. */
  function Collect<V>(ring: Network<V>): map<int, V>
  {
    if |ring| == 0 then map[] else Collect(ring[..|ring| - 1]) + ring[|ring| - 1].keys
  }

  /** Node `i` stores key `k`. */
  predicate HeldBy<V>(ring: Network<V>, k: int, i: int)
  {
    0 <= i < |ring| && k in ring[i].keys
  }

  /** Node `i` is the last node in list order that stores `k`. */
  predicate LastHeldBy<V>(ring: Network<V>, k: int, i: int)
  {
    HeldBy(ring, k, i) && forall j :: i < j < |ring| ==> k !in ring[j].keys
  }

  /** The merged contents hold exactly the stored keys. */
  lemma {:induction false} CollectKeys<V>(ring: Network<V>)
    ensures forall k :: k in Collect(ring) <==> exists i :: HeldBy(ring, k, i)
  {
    if |ring| > 0 {
      var n := |ring| - 1;
      var front := ring[..n];
      CollectKeys(front);
      var c := Collect(ring);
      assert c.Keys == Collect(front).Keys + ring[n].keys.Keys;
      forall k | exists i :: HeldBy(ring, k, i) ensures k in c {
        var i :| HeldBy(ring, k, i);
        if i < n {
          assert HeldBy(front, k, i);
        }
      }
      forall k | k in c ensures exists i :: HeldBy(ring, k, i) {
        if k !in ring[n].keys {
          var i :| HeldBy(front, k, i);
          assert HeldBy(ring, k, i);
        } else {
          assert HeldBy(ring, k, n);
        }
      }
    }
  }

  /** The node whose value the merge keeps for `k`: the last one storing it. */
  lemma {:induction false} LastHolder<V>(ring: Network<V>, k: int) returns (i: nat)
    requires k in Collect(ring)
    ensures LastHeldBy(ring, k, i) && Collect(ring)[k] == ring[i].keys[k]
    decreases |ring|
  {
    var n := |ring| - 1;
    var front := ring[..n];
    if k in ring[n].keys {
      i := n;
    } else {
      i := LastHolder(front, k);
      assert front[i] == ring[i];
      forall j | i < j < |ring| ensures k !in ring[j].keys {
        if j < n {
          assert front[j] == ring[j];
        }
      }
    }
  }

  /** Each merged value is the value of the last node that stores the key. */
  lemma CollectValues<V>(ring: Network<V>)
    ensures forall k :: k in Collect(ring) ==>
      exists i :: LastHeldBy(ring, k, i) && Collect(ring)[k] == ring[i].keys[k]
  {
    forall k | k in Collect(ring)
      ensures exists i :: LastHeldBy(ring, k, i) && Collect(ring)[k] == ring[i].keys[k]
    {
      var i := LastHolder(ring, k);
    }
  }

  /** Every key sits on at most one node. */
  predicate KeysDisjoint<V>(ring: Network<V>)
  {
    forall i, j, k :: 0 <= i < j < |ring| && k in ring[i].keys ==> k !in ring[j].keys
  }

  /** Every key sits on the node that owns it. */
  predicate Owned<V>(ring: Network<V>)
  {
    forall i, k :: 0 <= i < |ring| && k in ring[i].keys ==> Owner(Ids(ring), k) == i
  }

  /** When keys are disjoint, the merged contents hold each node's pairs. */
  lemma {:induction false} CollectDisjoint<V>(ring: Network<V>)
    requires KeysDisjoint(ring)
    ensures forall i, k :: 0 <= i < |ring| && k in ring[i].keys ==>
      k in Collect(ring) && Collect(ring)[k] == ring[i].keys[k]
  {
    forall i, k | 0 <= i < |ring| && k in ring[i].keys
      ensures k in Collect(ring) && Collect(ring)[k] == ring[i].keys[k]
    {
      CollectKeys(ring);
      assert HeldBy(ring, k, i);
      var h := LastHolder(ring, k);
      assert h == i;
    }
  }

  /** Merging depends only on the stores, not on ids or successors. */
  lemma {:induction false} CollectOfSameStores<V>(a: Network<V>, b: Network<V>)
    requires |a| == |b|
    requires forall i :: 0 <= i < |a| ==> a[i].keys == b[i].keys
    ensures Collect(a) == Collect(b)
  {
    if |a| > 0 {
      var k := |a| - 1;
      CollectOfSameStores(a[..k], b[..k]);
    }
  }

  /** Merging a concatenation merges the parts, the later part winning. */
  lemma {:induction false} CollectAppend<V>(a: Network<V>, b: Network<V>)
    ensures Collect(a + b) == Collect(a) + Collect(b)
  {
    if |b| == 0 {
      assert a + b == a;
    } else {
      var k := |b| - 1;
      var front := b[..k];
      assert (a + b)[..|a| + k] == a + front;
      assert (a + b)[|a| + k] == b[k];
      CollectAppend(a, front);
      CollectLast(a + b);
      CollectLast(b);
      UnionAssoc(Collect(a), Collect(front), b[k].keys);
    }
  }

  /** The merge of a non-empty list is the merge of its front, overridden by
      the last node's store. */
  lemma CollectLast<V>(ring: Network<V>)
    requires |ring| > 0
    ensures Collect(ring) == Collect(ring[..|ring| - 1]) + ring[|ring| - 1].keys
  {
  }

  /** Overriding is associative. */
  lemma UnionAssoc<V>(x: map<int, V>, y: map<int, V>, z: map<int, V>)
    ensures x + y + z == x + (y + z)
  {
  }

  /** A permutation of the nodes stores the same set of keys. */
  lemma CollectKeysOfPermutation<V>(a: Network<V>, b: Network<V>)
    requires multiset(a) == multiset(b)
    ensures Collect(a).Keys == Collect(b).Keys
  {
    CollectKeys(a);
    CollectKeys(b);
    forall k | k in Collect(a) ensures k in Collect(b) {
      var i :| HeldBy(a, k, i);
      assert a[i] in multiset(b);
      var j :| 0 <= j < |b| && b[j] == a[i];
      assert HeldBy(b, k, j);
    }
    forall k | k in Collect(b) ensures k in Collect(a) {
      var j :| HeldBy(b, k, j);
      assert b[j] in multiset(a);
      var i :| 0 <= i < |a| && a[i] == b[j];
      assert HeldBy(a, k, i);
    }
  }

  // ---------------------------------------------------------------------
  // Re-partitioning
  // ---------------------------------------------------------------------

  /** The pairs of `all` that position `i` owns. */
  function Share<V>(ids: seq<int>, all: map<int, V>, i: nat): (r: map<int, V>)
    requires |ids| > 0
  {
    map k | k in all && Owner(ids, k) == i :: all[k]
  }

  /** `after` is `before` with the merged contents of `before` stored afresh,
      each pair on its owner; ids and successors untouched. */
  ghost predicate Redistributed<V>(before: Network<V>, after: Network<V>)
  {
    && |after| == |before|
    && forall i :: 0 <= i < |before| ==>
         after[i] == before[i].(keys := Share(Ids(before), Collect(before), i))
  }

  /** `ring` with its stores replaced by the shares of `done`. */
  ghost predicate StoresShares<V>(ring: Network<V>, r: Network<V>, done: map<int, V>)
  {
    && |ring| > 0
    && |r| == |ring|
    && forall i :: 0 <= i < |r| ==> r[i] == ring[i].(keys := Share(Ids(ring), done, i))
  }

  /** The first loop of `redistribute_keys` empties every store. */
  function ClearKeys<V>(ring: Network<V>): (r: Network<V>)
    ensures |ring| > 0 ==> StoresShares(ring, r, map[])
    ensures |r| == |ring|
  {
    var r := seq(|ring|, i requires 0 <= i < |ring| => ring[i].(keys := map[]));
    assert forall i: nat :: |ring| > 0 ==> Share<V>(Ids(ring), map[], i) == map[];
    r
  }

  /** Marking one more pending key as done adds its pair to the done part. */
  lemma MarkDone<V>(all: map<int, V>, pending: set<int>, k: int)
    requires k in pending && pending <= all.Keys
    ensures all - (pending - {k}) == (all - pending)[k := all[k]]
  {
  }

  /** `redistribute_keys`: empty every store, then `insert_key` each merged
      pair. The loop takes the keys in an arbitrary order. */
  method RedistributeKeys<V>(ring: Network<V>) returns (r: Network<V>)
    ensures Redistributed(ring, r)
    ensures Owned(r)
    ensures Collect(r) == Collect(ring)
  {
    var all := Collect(ring);
    r := ClearKeys(ring);
    if |ring| == 0 {
      RedistributedProperties(ring, r);
      return;
    }
    var pending := all.Keys;
    assert all - pending == map[];
    while pending != {}
      invariant pending <= all.Keys
      invariant StoresShares(ring, r, all - pending)
      decreases pending
    {
      if forall k :: k !in pending {
        assert false;  // a non-empty set has a member
      }
      var k :| k in pending;
      MarkDone(all, pending, k);
      r := StoreOne(ring, r, all - pending, k, all[k]);
      pending := pending - {k};
    }
    assert all - pending == all;
    RedistributedProperties(ring, r);
  }

  /** One iteration of the second loop of `redistribute_keys`: `insert_key`
      on a ring that holds the shares of `done` yields the shares of
      `done` plus the inserted pair. */
  function StoreOne<V>(ring: Network<V>, r: Network<V>, done: map<int, V>, k: int, v: V): (r': Network<V>)
    requires StoresShares(ring, r, done)
    ensures StoresShares(ring, r', done[k := v])
  {
    assert Ids(r) == Ids(ring);
    var placed := InsertKey(r, k, v);
    ShareAdd(Ids(ring), done, k, v);
    placed.value.ring
  }

  /** Adding one pair to the merged contents adds it to its owner's share only. */
  lemma ShareAdd<V>(ids: seq<int>, m: map<int, V>, k: int, v: V)
    requires |ids| > 0
    ensures Share(ids, m[k := v], Owner(ids, k)) == Share(ids, m, Owner(ids, k))[k := v]
    ensures forall i: nat :: i != Owner(ids, k) ==> Share(ids, m[k := v], i) == Share(ids, m, i)
  {
  }

  /** Re-partitioning keeps ids and successors, leaves every key on its owner
      and loses, invents and changes nothing in the merged contents. */
  lemma RedistributedProperties<V>(before: Network<V>, after: Network<V>)
    requires Redistributed(before, after)
    ensures Ids(after) == Ids(before)
    ensures forall i :: 0 <= i < |after| ==> after[i].successor == before[i].successor
    ensures Owned(after)
    ensures Collect(after) == Collect(before)
  {
    RedistributedOwned(before, after);
    RedistributedContents(before, after);
  }

  /** Re-partitioning keeps the ids and puts every key on its owner. */
  lemma RedistributedOwned<V>(before: Network<V>, after: Network<V>)
    requires Redistributed(before, after)
    ensures Ids(after) == Ids(before)
    ensures Owned(after)
  {
    assert Ids(after) == Ids(before);
  }

  /** Re-partitioning neither loses nor changes a merged pair. */
  lemma RedistributedContents<V>(before: Network<V>, after: Network<V>)
    requires Redistributed(before, after)
    ensures Collect(after) == Collect(before)
  {
    RedistributedOwned(before, after);
    var all := Collect(before);
    var ids := Ids(before);
    CollectKeys(before);
    CollectKeys(after);
    if |before| > 0 {
      OwnedIsDisjoint(after);
      CollectDisjoint(after);
      forall k | k in all ensures k in Collect(after) && Collect(after)[k] == all[k] {
        assert HeldBy(after, k, Owner(ids, k));
      }
      forall k | k in Collect(after) ensures k in all {
        var i :| HeldBy(after, k, i);
      }
    }
  }

  /** When every key is owned, a key is in the merged contents exactly when
      its owner stores it, with the owner's value. */
  lemma OwnedCollect<V>(ring: Network<V>)
    requires Owned(ring) && |ring| > 0
    ensures forall k :: k in Collect(ring) <==> k in ring[Owner(Ids(ring), k)].keys
    ensures forall k :: k in Collect(ring) ==> Collect(ring)[k] == ring[Owner(Ids(ring), k)].keys[k]
  {
    var ids := Ids(ring);
    CollectKeys(ring);
    OwnedIsDisjoint(ring);
    CollectDisjoint(ring);
    forall k | k in Collect(ring) ensures k in ring[Owner(ids, k)].keys {
      var i :| HeldBy(ring, k, i);
      assert Owner(ids, k) == i;
    }
    forall k | k in ring[Owner(ids, k)].keys ensures k in Collect(ring) {
      assert HeldBy(ring, k, Owner(ids, k));
    }
  }

  /** A ring whose keys are all owned is left as it is by re-partitioning. */
  lemma OwnedIsFixedPoint<V>(ring: Network<V>)
    requires Owned(ring)
    ensures Redistributed(ring, ring)
  {
    if |ring| > 0 {
      var ids := Ids(ring);
      var all := Collect(ring);
      OwnedCollect(ring);
      forall i | 0 <= i < |ring| ensures ring[i].keys == Share(ids, all, i) {
        forall k | k in ring[i].keys ensures k in Share(ids, all, i) && Share(ids, all, i)[k] == ring[i].keys[k] {
          assert Owner(ids, k) == i;
        }
      }
    }
  }

  /** Running `redistribute_keys` a second time changes nothing. */
  lemma RedistributeIdempotent<V>(a: Network<V>, b: Network<V>, c: Network<V>)
    requires Redistributed(a, b) && Redistributed(b, c)
    ensures c == b
  {
    RedistributedProperties(a, b);
    OwnedIsFixedPoint(b);
  }

  /** If every key sits on at most one node beforehand, re-partitioning moves
      each pair to the key's owner with its value unchanged. */
  lemma RedistributeKeepsPairs<V>(a: Network<V>, b: Network<V>)
    requires Redistributed(a, b) && KeysDisjoint(a)
    ensures forall i, k :: HeldBy(a, k, i) ==>
      var o := Owner(Ids(a), k); HeldBy(b, k, o) && b[o].keys[k] == a[i].keys[k]
  {
    CollectDisjoint(a);
  }

  /** Re-partitioning invents no pair: whatever a node stores afterwards was
      stored, with that value, on some node before. */
  lemma RedistributeInventsNothing<V>(a: Network<V>, b: Network<V>)
    requires Redistributed(a, b)
    ensures forall j, k :: HeldBy(b, k, j) ==>
      exists i :: HeldBy(a, k, i) && a[i].keys[k] == b[j].keys[k]
  {
    CollectValues(a);
    forall j, k | HeldBy(b, k, j) ensures exists i :: HeldBy(a, k, i) && a[i].keys[k] == b[j].keys[k] {
      var i :| LastHeldBy(a, k, i) && Collect(a)[k] == a[i].keys[k];
    }
  }

  /** Every key sits on exactly one node once keys are owned. */
  lemma OwnedIsDisjoint<V>(ring: Network<V>)
    requires Owned(ring)
    ensures KeysDisjoint(ring)
  {
    forall i, j, k | 0 <= i < j < |ring| && k in ring[i].keys ensures k !in ring[j].keys {
      assert Owner(Ids(ring), k) == i;
    }
  }

  /** `insert_key` on a ring whose keys are all owned keeps them owned and
      updates the merged contents at exactly that key. */
  lemma InsertKeyKeepsOwned<V>(ring: Network<V>, key: int, value: V)
    requires Owned(ring) && |ring| > 0
    ensures var p := InsertKey(ring, key, value).value;
      && Ids(p.ring) == Ids(ring)
      && Owned(p.ring)
      && Collect(p.ring) == Collect(ring)[key := value]
  {
    var p := InsertKey(ring, key, value).value;
    assert Ids(p.ring) == Ids(ring);
    assert Owned(p.ring);
    OwnedStoreContents(ring, p.ring, p.owner, key, value);
  }

  /** Storing a pair on its owner in a network whose keys are all owned adds
      exactly that pair to the merged contents. */
  lemma OwnedStoreContents<V>(ring: Network<V>, r: Network<V>, o: nat, key: int, value: V)
    requires Owned(ring) && Owned(r) && |r| == |ring| && Ids(r) == Ids(ring)
    requires o < |ring| && o == Owner(Ids(ring), key)
    requires r[o].keys == ring[o].keys[key := value]
    requires forall i :: 0 <= i < |ring| && i != o ==> r[i].keys == ring[i].keys
    ensures Collect(r) == Collect(ring)[key := value]
  {
    var ids := Ids(ring);
    OwnedCollect(ring);
    OwnedCollect(r);
    var before, after := Collect(ring), Collect(r);
    forall k ensures (k in after <==> k in before[key := value])
      && (k in after ==> after[k] == before[key := value][k])
    {
      var h := Owner(ids, k);
      if h != o {
        assert r[h].keys == ring[h].keys;
      }
    }
  }
}
