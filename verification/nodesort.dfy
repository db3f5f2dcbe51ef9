/**
 The stable sort by id that `add_node` applies after appending a node
 (`list.sort(key=...)` in the source). It is modelled as an insertion sort
 that places each element after every earlier element whose id is not
 larger, which is what makes it stable.
 */
module NodeSort {
  import opened Ring

  /** Where `InsertById` puts a node with id `id`: scanning from the back,
      just after the last element whose id is at most `id`. */
  function InsertPos<V>(s: Network<V>, id: int): (p: nat)
    ensures p <= |s|
    ensures forall j :: p <= j < |s| ==> id < s[j].id
    ensures p > 0 ==> s[p - 1].id <= id
  {
    if |s| == 0 || s[|s| - 1].id <= id then |s|
    else InsertPos(s[..|s| - 1], id)
  }

  /** The ids of a ring with `n` spliced in at position `p`. */
  lemma IdsOfSplice<V>(s: Network<V>, n: Node<V>, p: nat)
    requires p <= |s|
    ensures Ids(s[..p] + [n] + s[p..]) == Ids(s)[..p] + [n.id] + Ids(s)[p..]
  {
  }

  /** Splicing `n` in after every id at most its own keeps a sorted ring sorted. */
  lemma SpliceKeepsSorted(ids: seq<int>, id: int, p: nat)
    requires p <= |ids|
    requires p > 0 ==> ids[p - 1] <= id
    requires forall j :: p <= j < |ids| ==> id < ids[j]
    ensures Sorted(ids) ==> Sorted(ids[..p] + [id] + ids[p..])
  {
    if !Sorted(ids) { return; }
    var r := ids[..p] + [id] + ids[p..];
    forall i, j | 0 <= i < j < |r| ensures r[i] <= r[j] {
      if j < p {
      } else if j == p {
        assert ids[i] <= ids[p - 1];
      } else if i < p {
        assert r[j] == ids[j - 1];
      } else if i == p {
        assert r[j] == ids[j - 1];
      } else {
        assert r[i] == ids[i - 1] && r[j] == ids[j - 1];
      }
    }
  }

  /** One step of the insertion sort. */
  function InsertById<V>(s: Network<V>, n: Node<V>): (r: Network<V>)
    ensures |r| == |s| + 1
    ensures multiset(r) == multiset(s) + multiset{n}
    ensures multiset(Ids(r)) == multiset(Ids(s)) + multiset{n.id}
    ensures Sorted(Ids(s)) ==> Sorted(Ids(r))
  {
    var p := InsertPos(s, n.id);
    assert s == s[..p] + s[p..];
    IdsOfSplice(s, n, p);
    assert Ids(s) == Ids(s)[..p] + Ids(s)[p..];
    SpliceKeepsSorted(Ids(s), n.id, p);
    s[..p] + [n] + s[p..]
  }

  /** The ring after the sort: a sorted permutation of the input. */
  function SortById<V>(s: Network<V>): (r: Network<V>)
    ensures |r| == |s|
    ensures Sorted(Ids(r))
    ensures multiset(r) == multiset(s)
    ensures multiset(Ids(r)) == multiset(Ids(s))
  {
    if |s| == 0 then []
    else
      var k := |s| - 1;
      assert s == s[..k] + [s[k]];
      assert Ids(s) == Ids(s[..k]) + [s[k].id];
      InsertById(SortById(s[..k]), s[k])
  }

  /** A node no smaller than the last one is inserted at the end. */
  lemma InsertAtEnd<V>(s: Network<V>, n: Node<V>)
    requires |s| > 0 ==> s[|s| - 1].id <= n.id
    ensures InsertById(s, n) == s + [n]
  {
    assert InsertPos(s, n.id) == |s|;
    assert s[..|s|] == s && s[|s|..] == [];
  }

  /** A prefix of a sorted ring is sorted. */
  lemma IdsOfPrefix<V>(s: Network<V>, k: nat)
    requires k <= |s|
    ensures Ids(s[..k]) == Ids(s)[..k]
    ensures Sorted(Ids(s)) ==> Sorted(Ids(s[..k]))
  {
    assert Ids(s[..k]) == Ids(s)[..k];
  }

  /** Sorting an already sorted ring changes nothing. */
  lemma {:induction false} SortSortedIsIdentity<V>(s: Network<V>)
    requires Sorted(Ids(s))
    ensures SortById(s) == s
  {
    if |s| > 0 {
      var k := |s| - 1;
      var front := s[..k];
      IdsOfPrefix(s, k);
      SortSortedIsIdentity(front);
      assert SortById(s) == InsertById(SortById(front), s[k]);
      if k > 0 {
        assert Ids(s)[k - 1] <= Ids(s)[k];
      }
      InsertAtEnd(front, s[k]);
      assert s[k..] == [s[k]];
      assert s == front + s[k..];
    }
  }

  /** Appending a node to a sorted ring and sorting inserts the node after
      every node of smaller or equal id and before every node of larger id. */
  lemma {:induction false} SortAfterAppend<V>(s: Network<V>, n: Node<V>)
    requires Sorted(Ids(s))
    ensures var p := InsertPos(s, n.id);
      && SortById(s + [n]) == s[..p] + [n] + s[p..]
      && (forall j :: 0 <= j < p ==> s[j].id <= n.id)
      && (forall j :: p <= j < |s| ==> n.id < s[j].id)
  {
    var p := InsertPos(s, n.id);
    assert (s + [n])[..|s|] == s;
    SortSortedIsIdentity(s);
    forall j | 0 <= j < p ensures s[j].id <= n.id {
      assert Ids(s)[j] <= Ids(s)[p - 1];
    }
  }
}
