/**
 * The routing table as the object it is: the bucket ids, the node store and the
 * replacement caches are fields that addNode, removeNode, updateNode,
 * addToReplacementCache and createOrUpdateKBucket change in place.  Each method
 * leaves the table in the state the matching function of module KadTable
 * computes, so the lemmas proved there hold of the object.  Lookups that walk
 * the stores are loops proved against the same functions, and sortByXOR is an
 * in-place sort of a key array.
 */
module KadRouting {
  import opened Wrappers
  import opened BitArith
  import opened KadIds
  import opened KadPartition
  import opened KadStore
  import opened KadTable

  class RoutingTable {
    var self: Id
    var bucketSize: nat
    var rcBucketSize: nat
    var buckets: seq<Id>
    var nodes: seq<Node>
    var cache: map<Id, seq<Node>>

    /** The table's contents as a value. */
    function State(): Table
      reads this
    {
      Table(self, bucketSize, rcBucketSize, buckets, nodes, cache)
    }

    /** Ascending bucket ids ending in the all-ones id, over an ascending store. */
    predicate Valid()
      reads this
    {
      KadTable.Valid(State())
    }

    /** The table of the local node, holding its record in one bucket covering every id. */
    constructor (local: Node, bucketSize: nat, rcBucketSize: nat)
      ensures Valid() && Dyadic(buckets)
      ensures State() == NewTable(local, bucketSize, rcBucketSize)
    {
      self := local.id;
      this.bucketSize := bucketSize;
      this.rcBucketSize := rcBucketSize;
      buckets := [MAX_ID];
      nodes := [local];
      cache := map[];
      SingleBucketDyadic();
    }

    /** getKBucketID: walk the ascending bucket ids to the first one at least id. */
    method GetKBucketId(id: Id) returns (b: Id)
      requires Valid()
      ensures b == KBucketId(State(), id)
    {
      var i := 0;
      while buckets[i] < id
        invariant 0 <= i < |buckets|
        invariant forall j :: 0 <= j < i ==> buckets[j] < id
        decreases |buckets| - i
      {
        i := i + 1;
      }
      BucketIndexUnique(buckets, id, i);
      b := buckets[i];
    }

    /**
     * getNodeIDsWithinKBucket: find the bucket's range, then collect the stored
     * ids inside it in store order.
     */
    method GetNodeIdsWithinKBucket(b: Id) returns (r: Result<seq<Id>, RoutingError>)
      requires Valid()
      ensures r == NodeIdsWithin(State(), b)
    {
      var k := 0;
      while k < |buckets| && buckets[k] != b
        invariant 0 <= k <= |buckets|
        invariant forall j :: 0 <= j < k ==> buckets[j] != b
      {
        k := k + 1;
      }
      if k == |buckets| {
        return Err(BucketNotFound);
      }
      IndexOfBoundary(buckets, k);
      var lo := Lower(buckets, k);
      var ids := CollectIds(nodes, lo, b);
      assert IndexOf(State().buckets, b) == Some(k);
      assert ids == Ids(Members(State(), k));
      r := Ok(ids);
    }

    /** kadBucketHasRoom: the bucket holds fewer than bucketSize ids. */
    method KadBucketHasRoom(b: Id) returns (r: Result<bool, RoutingError>)
      requires Valid()
      ensures r == HasRoom(State(), b)
    {
      var ids := GetNodeIdsWithinKBucket(b);
      if ids.Err? {
        return Err(ids.error);
      }
      r := Ok(|ids.value| < bucketSize);
    }

    /** kadBucketContainsLocalNode: the local node's bucket is b. */
    method KadBucketContainsLocalNode(b: Id) returns (r: bool)
      requires Valid()
      ensures r == ContainsLocal(State(), b)
    {
      var own := GetKBucketId(self);
      r := own == b;
    }

    /**
     * addNode: store the node in its bucket while that bucket has room; a full
     * bucket without the local node passes it to the replacement cache; a full
     * bucket with the local node is split at its leaf depth and the insertion
     * retried.  The result is the one KadTable.AddNode computes; from a dyadic
     * partition it never fails and the partition stays dyadic.
     */
    method AddNode(n: Node) returns (added: bool, err: Option<RoutingError>)
      requires Valid()
      modifies this
      ensures var r := KadTable.AddNode(old(State()), n);
        (r.Ok? ==> err == None && added == r.value.0 && State() == r.value.1) &&
        (r.Err? ==> (err == Some(r.error) && !added && WellFormed(buckets) &&
          nodes == old(nodes) && cache == old(cache)))
      ensures old(Dyadic(buckets)) ==> err == None && Valid() && Dyadic(buckets)
    {
      ghost var t0 := State();
      if Dyadic(buckets) {
        AddNodeKeepsValid(t0, n);
      }
      if n.id == self {
        buckets := InsertBoundary(buckets, MAX_ID);
        nodes := Put(nodes, n);
        PutContents(t0.nodes, n);
        AddLocalKeepsBuckets(t0);
        return true, None;
      }
      var r := AddNodeSteps(State(), n);
      if r.Err? {
        return false, Some(r.error);
      }
      var t := r.value.1;
      buckets, nodes, cache := t.buckets, t.nodes, t.cache;
      assert State() == t;
      return r.value.0, None;
    }

    /**
     * removeNode: drop the record, if there is one, and promote the newest
     * candidate cached for its bucket.
     */
    method RemoveNode(id: Id)
      requires Valid()
      modifies this
      ensures Valid()
      ensures State() == KadTable.RemoveNode(old(State()), id)
    {
      ghost var t0 := State();
      RemoveNodeEffect(t0, id);
      if Find(nodes, id).None? {
        return;
      }
      var b := GetKBucketId(id);
      var rest := Delete(nodes, id);
      if b in cache && |cache[b]| > 0 {
        var c := cache[b];
        nodes := Put(rest, c[|c| - 1]);
        cache := cache[b := c[..|c| - 1]];
      } else {
        nodes := rest;
      }
      assert State() == KadTable.RemoveNode(t0, id);
    }

    /** updateNode: overwrite the record of a stored node; an unknown node is an error. */
    method UpdateNode(n: Node) returns (err: Option<RoutingError>)
      requires Valid()
      modifies this
      ensures Valid()
      ensures var r := KadTable.UpdateNode(old(State()), n);
        (r.Ok? ==> err == None && State() == r.value) &&
        (r.Err? ==> err == Some(NodeNotFound) && State() == old(State()))
    {
      if Find(nodes, n.id).None? {
        return Some(NodeNotFound);
      }
      nodes := Put(nodes, n);
      PutContents(old(nodes), n);
      err := None;
    }

    /** addToReplacementCache: append n to bucket b's cache, keeping the newest rcBucketSize. */
    method AddToReplacementCache(b: Id, n: Node)
      requires Valid()
      modifies this
      ensures Valid()
      ensures State() == old(State()).(cache := AddToCache(old(cache), b, n, rcBucketSize))
    {
      cache := AddToCache(cache, b, n, rcBucketSize);
    }

    /** createOrUpdateKBucket: make b a bucket id. */
    method CreateOrUpdateKBucket(b: Id)
      requires Valid()
      modifies this
      ensures Valid()
      ensures State() == KadTable.CreateOrUpdateKBucket(old(State()), b)
    {
      buckets := InsertBoundary(buckets, b);
      InsertBoundaryWellFormed(old(buckets), b);
    }
  }

  /**
   * The retry loop of addNode on a table value: store the node while its bucket
   * has room, pass it to the replacement cache when the full bucket does not
   * hold the local node, and otherwise split that bucket and try again.
   */
  method AddNodeSteps(t0: Table, n: Node) returns (r: Result<(bool, Table), RoutingError>)
    requires WellFormed(t0.buckets) && n.id != t0.self
    ensures r == KadTable.AddNode(t0, n)
    ensures r.Ok? ==> (r.value.1.self == t0.self && r.value.1.bucketSize == t0.bucketSize &&
                       r.value.1.rcBucketSize == t0.rcBucketSize && WellFormed(r.value.1.buckets))
  {
    var t := t0;
    while true
      invariant WellFormed(t.buckets) && t == t0.(buckets := t.buckets)
      invariant KadTable.AddNode(t, n) == KadTable.AddNode(t0, n)
      decreases Size(t.buckets, BucketIndex(t.buckets, n.id))
    {
      var i := BucketIndex(t.buckets, n.id);
      if |InRange(t.nodes, Lower(t.buckets, i), t.buckets[i])| < t.bucketSize {
        return Ok((true, t.(nodes := Put(t.nodes, n))));
      }
      if !InBucket(t.buckets, i, t.self) {
        return Ok((false, t.(cache := AddToCache(t.cache, t.buckets[i], n, t.rcBucketSize))));
      }
      var step := SplitStep(t, i);
      if step.Err? {
        return Err(step.error);
      }
      SplitShrinks(t.buckets, i, step.value, n.id);
      AddNodeRetries(t, n, step.value);
      t := t.(buckets := InsertBoundary(t.buckets, step.value));
    }
  }

  /** The ids of records followed by one more record. */
  lemma IdsSnoc(ns: seq<Node>, n: Node)
    ensures Ids(ns + [n]) == Ids(ns) + [n.id]
  {
    assert |Ids(ns + [n])| == |Ids(ns) + [n.id]|;
    forall i | 0 <= i < |ns| + 1
      ensures Ids(ns + [n])[i] == (Ids(ns) + [n.id])[i]
    {
    }
  }

  /** One more record of the store adds its id to the ids in range exactly when it lies in the range. */
  lemma IdsInRangeStep(ns: seq<Node>, m: nat, lo: int, hi: int)
    requires m < |ns|
    ensures Ids(InRange(ns[..m + 1], lo, hi)) ==
      if lo < ns[m].id <= hi then Ids(InRange(ns[..m], lo, hi)) + [ns[m].id] else Ids(InRange(ns[..m], lo, hi))
  {
    assert ns[..m + 1] == ns[..m] + [ns[m]];
    InRangeAppend(ns[..m], [ns[m]], lo, hi);
    if lo < ns[m].id <= hi {
      assert InRange([ns[m]], lo, hi) == [ns[m]];
      IdsSnoc(InRange(ns[..m], lo, hi), ns[m]);
    } else {
      assert InRange([ns[m]], lo, hi) == [];
      assert InRange(ns[..m] + [ns[m]], lo, hi) == InRange(ns[..m], lo, hi);
    }
  }

  /** The ids of the records in (lo, hi], collected in store order. */
  method CollectIds(ns: seq<Node>, lo: int, hi: int) returns (ids: seq<Id>)
    ensures ids == Ids(InRange(ns, lo, hi))
  {
    ids := [];
    for m := 0 to |ns|
      invariant ids == Ids(InRange(ns[..m], lo, hi))
    {
      IdsInRangeStep(ns, m, lo, hi);
      if lo < ns[m].id <= hi {
        ids := ids + [ns[m].id];
      }
    }
    assert ns[..|ns|] == ns;
  }

  // sortByXOR

  /** Keys in ascending XOR distance from the pivot. */
  predicate SortedByDistance(s: seq<Id>, pivot: Id) {
    forall i, j :: 0 <= i < j < |s| ==> Distance(s[i], pivot) <= Distance(s[j], pivot)
  }

  /** Keys whose neighbours are in ascending distance are in ascending distance throughout. */
  lemma {:induction false} ChainSorted(s: seq<Id>, pivot: Id)
    requires forall i :: 0 < i < |s| ==> Distance(s[i - 1], pivot) <= Distance(s[i], pivot)
    ensures SortedByDistance(s, pivot)
    decreases |s|
  {
    if |s| > 1 {
      var rest := s[1..];
      assert forall i :: 0 < i < |rest| ==> rest[i - 1] == s[i] && rest[i] == s[i + 1];
      ChainSorted(rest, pivot);
      forall i, j | 0 <= i < j < |s|
        ensures Distance(s[i], pivot) <= Distance(s[j], pivot)
      {
        if i > 0 {
          assert s[i] == rest[i - 1] && s[j] == rest[j - 1];
        } else if j > 1 {
          assert s[1] == rest[0] && s[j] == rest[j - 1];
        }
      }
    }
  }

  /** Ids at the same distance from a pivot are the same id. */
  lemma DistanceInjective(a: Id, b: Id, pivot: Id)
    requires Distance(a, pivot) == Distance(b, pivot)
    ensures a == b
  {
    Pow2IdBits();
    XorInjective(a, b, pivot, 16);
  }

  /** The first n keys are in ascending distance from the pivot. */
  predicate SortedPrefix(s: seq<Id>, n: int, pivot: Id) {
    forall x, y :: 0 <= x < y < n && y < |s| ==> Distance(s[x], pivot) <= Distance(s[y], pivot)
  }

  /**
   * Midway through inserting key i: apart from the key at j, which is moving
   * down, the first i + 1 keys are in order, and every key above j is at least
   * as far from the pivot as it.
   */
  predicate Inserting(s: seq<Id>, i: int, j: int, pivot: Id) {
    0 <= j <= i < |s| &&
    (forall x, y :: 0 <= x < y <= i && x != j && y != j ==> Distance(s[x], pivot) <= Distance(s[y], pivot)) &&
    (forall y :: j < y <= i ==> Distance(s[j], pivot) <= Distance(s[y], pivot))
  }

  /**
   * sortByXOR: reorder the keys in place into ascending distance from the pivot,
   * keeping the same keys.
   */
  method SortByXor(a: array<Id>, pivot: Id)
    modifies a
    ensures SortedByDistance(a[..], pivot)
    ensures multiset(a[..]) == multiset(old(a[..]))
  {
    for i := 0 to a.Length
      invariant SortedPrefix(a[..], i, pivot)
      invariant multiset(a[..]) == multiset(old(a[..]))
    {
      InsertStep(a, i, pivot);
    }
  }

  /** One insertion-sort step: key i moves down past the keys further from the pivot. */
  method InsertStep(a: array<Id>, i: int, pivot: Id)
    requires 0 <= i < a.Length && SortedPrefix(a[..], i, pivot)
    modifies a
    ensures SortedPrefix(a[..], i + 1, pivot)
    ensures multiset(a[..]) == multiset(old(a[..]))
  {
    var j := i;
    while j > 0 && Distance(a[j - 1], pivot) > Distance(a[j], pivot)
      invariant multiset(a[..]) == multiset(old(a[..]))
      invariant Inserting(a[..], i, j, pivot)
    {
      ghost var before := a[..];
      SwapDown(a, j);
      InsertingStep(before, a[..], i, j, pivot);
      j := j - 1;
    }
    InsertingDone(a[..], i, j, pivot);
  }

  /** Swapping the moving key with a further key before it keeps the insertion in progress. */
  lemma InsertingStep(s: seq<Id>, t: seq<Id>, i: int, j: int, pivot: Id)
    requires 0 < j && Inserting(s, i, j, pivot) && |t| == |s|
    requires Distance(s[j - 1], pivot) > Distance(s[j], pivot)
    requires t[j - 1] == s[j] && t[j] == s[j - 1]
    requires forall k :: 0 <= k < |s| && k != j - 1 && k != j ==> t[k] == s[k]
    ensures Inserting(t, i, j - 1, pivot)
  {
    forall x, y | 0 <= x < y <= i && x != j - 1 && y != j - 1
      ensures Distance(t[x], pivot) <= Distance(t[y], pivot)
    {
      if y == j {
        assert x < j - 1;
        assert Distance(s[x], pivot) <= Distance(s[j - 1], pivot);
      }
    }
  }

  /** Once the moving key has stopped, the first i + 1 keys are in order. */
  lemma InsertingDone(s: seq<Id>, i: int, j: int, pivot: Id)
    requires Inserting(s, i, j, pivot)
    requires j == 0 || Distance(s[j - 1], pivot) <= Distance(s[j], pivot)
    ensures SortedPrefix(s, i + 1, pivot)
  {
    forall x, y | 0 <= x < y < i + 1 && y < |s|
      ensures Distance(s[x], pivot) <= Distance(s[y], pivot)
    {
      if y == j && x < j - 1 {
        assert Distance(s[x], pivot) <= Distance(s[j - 1], pivot);
      }
    }
  }

  /** Exchange key j with the key before it; nothing else moves. */
  method SwapDown(a: array<Id>, j: int)
    requires 0 < j < a.Length
    modifies a
    ensures a[j - 1] == old(a[j]) && a[j] == old(a[j - 1])
    ensures forall k :: 0 <= k < a.Length && k != j - 1 && k != j ==> a[k] == old(a[k])
    ensures multiset(a[..]) == multiset(old(a[..]))
  {
    a[j - 1], a[j] := a[j], a[j - 1];
  }

  /**
   * The order sortByXOR produces is the only one: two orderings of the same keys
   * by distance from one pivot are equal, since distinct ids lie at distinct
   * distances.
   */
  lemma {:induction false} SortedByDistanceUnique(s: seq<Id>, t: seq<Id>, pivot: Id)
    requires multiset(s) == multiset(t)
    requires SortedByDistance(s, pivot) && SortedByDistance(t, pivot)
    ensures s == t
    decreases |s|
  {
    assert |s| == |multiset(s)| == |multiset(t)| == |t|;
    if |s| > 0 {
      SameFirst(s, t, pivot);
      SameRest(s, t);
      assert SortedByDistance(s[1..], pivot) && SortedByDistance(t[1..], pivot);
      SortedByDistanceUnique(s[1..], t[1..], pivot);
      assert s == [s[0]] + s[1..] && t == [t[0]] + t[1..];
    }
  }

  /** Two orderings by distance of the same non-empty keys start with the same key. */
  lemma SameFirst(s: seq<Id>, t: seq<Id>, pivot: Id)
    requires multiset(s) == multiset(t) && |s| > 0
    requires SortedByDistance(s, pivot) && SortedByDistance(t, pivot)
    ensures |t| > 0 && s[0] == t[0]
  {
    assert s[0] in multiset(t);
    var k :| 0 <= k < |t| && t[k] == s[0];
    assert t[0] in multiset(s);
    var k' :| 0 <= k' < |s| && s[k'] == t[0];
    assert Distance(t[0], pivot) <= Distance(t[k], pivot);
    assert Distance(s[0], pivot) <= Distance(s[k'], pivot);
    DistanceInjective(s[0], t[0], pivot);
  }

  /** Removing the same first key from equal multisets leaves equal multisets. */
  lemma SameRest(s: seq<Id>, t: seq<Id>)
    requires multiset(s) == multiset(t) && |s| > 0 && |t| > 0 && s[0] == t[0]
    ensures multiset(s[1..]) == multiset(t[1..])
  {
    MultisetTail(s);
    MultisetTail(t);
  }

  /** The multiset of a non-empty sequence's tail is its multiset without the first element. */
  lemma MultisetTail(s: seq<Id>)
    requires |s| > 0
    ensures multiset(s[1..]) == multiset(s) - multiset{s[0]}
  {
    assert s == [s[0]] + s[1..];
    assert multiset(s) == multiset{s[0]} + multiset(s[1..]);
  }

}
