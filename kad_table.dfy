/**
 * The routing table as a value: the local node's id, the two size settings, the
 * ordered bucket ids, the ordered node store and the per-bucket replacement
 * caches.  Each operation of the table is a function from one table to the next;
 * the class in module KadRouting performs the same steps in place.
 */
module KadTable {
  import opened Wrappers
  import opened KadIds
  import opened KadPartition
  import opened KadStore

  datatype Table = Table(
    self: Id,                     // the local node's id
    bucketSize: nat,              // k: the most records a bucket admits
    rcBucketSize: nat,            // the most candidates a replacement cache keeps
    buckets: seq<Id>,             // the bucket ids, ascending, all-ones last
    nodes: seq<Node>,             // the node records, ascending by id
    cache: map<Id, seq<Node>>)    // bucket id -> cached candidates, oldest first

  /** The shape every table keeps: well-formed bucket ids over a sorted store. */
  predicate Valid(t: Table) {
    WellFormed(t.buckets) && Sorted(t.nodes)
  }

  /** No bucket holds more than bucketSize records. */
  predicate Capacity(t: Table)
    requires WellFormed(t.buckets)
  {
    Fits(t.buckets, t.nodes, t.bucketSize)
  }

  /** Each bucket of bs holds at most k of the records ns. */
  predicate Fits(bs: seq<Id>, ns: seq<Node>, k: nat)
    requires WellFormed(bs)
  {
    forall i :: 0 <= i < |bs| ==> |InRange(ns, Lower(bs, i), bs[i])| <= k
  }

  /** No replacement cache holds more than rcBucketSize candidates. */
  predicate CacheBounded(t: Table) {
    forall b :: b in t.cache ==> |t.cache[b]| <= t.rcBucketSize
  }

  /** The records of bucket i. */
  function Members(t: Table, i: nat): seq<Node>
    requires i < |t.buckets|
  {
    InRange(t.nodes, Lower(t.buckets, i), t.buckets[i])
  }

  /**
   * newTestRoutingTable: the table after its first addNode, of the local node:
   * one bucket covering every id, holding the local node's record.
   */
  function NewTable(local: Node, bucketSize: nat, rcBucketSize: nat): (t: Table)
    ensures Valid(t) && Dyadic(t.buckets) && CacheBounded(t)
    ensures t.self == local.id && Find(t.nodes, local.id) == Some(local)
    ensures forall id: Id :: KBucketId(t, id) == MAX_ID
  {
    SingleBucketDyadic();
    Table(local.id, bucketSize, rcBucketSize, [MAX_ID], [local], map[])
  }

  /** getKBucketID: the bucket of an id is the smallest bucket id at least the id. */
  function KBucketId(t: Table, id: Id): (b: Id)
    requires WellFormed(t.buckets)
    ensures b in t.buckets && id <= b
    ensures forall c :: c in t.buckets && id <= c ==> b <= c
  {
    var i := BucketIndex(t.buckets, id);
    assert forall j :: 0 <= j < i ==> t.buckets[j] <= Lower(t.buckets, i);
    t.buckets[i]
  }

  /** getKBucketRange on the table's own bucket ids. */
  function KBucketRangeOf(t: Table, b: Id): Result<(Id, Id), RoutingError> {
    KBucketRange(t.buckets, b)
  }

  /** getNodeIDsWithinKBucket: the ids of the records of bucket b, ascending. */
  function NodeIdsWithin(t: Table, b: Id): (r: Result<seq<Id>, RoutingError>)
    ensures r.Err? <==> b !in t.buckets
    ensures r.Err? ==> r.error == BucketNotFound
  {
    match IndexOf(t.buckets, b)
    case None => Err(BucketNotFound)
    case Some(i) => Ok(Ids(Members(t, i)))
  }

  /**
   * The ids within a bucket are exactly the stored ids whose bucket it is, in
   * ascending order.
   */
  lemma NodeIdsWithinMembers(t: Table, i: nat)
    requires Valid(t) && i < |t.buckets|
    ensures NodeIdsWithin(t, t.buckets[i]).Ok?
    ensures var ids := NodeIdsWithin(t, t.buckets[i]).value;
      (forall id: Id :: id in ids <==> Find(t.nodes, id).Some? && KBucketId(t, id) == t.buckets[i]) &&
      (forall a, c :: 0 <= a < c < |ids| ==> ids[a] < ids[c])
  {
    IndexOfBoundary(t.buckets, i);
    var ms := Members(t, i);
    InRangeSorted(t.nodes, Lower(t.buckets, i), t.buckets[i]);
    forall id: Id
      ensures id in Ids(ms) <==> Find(t.nodes, id).Some? && KBucketId(t, id) == t.buckets[i]
    {
      IdsFind(ms, id);
      InRangeContents(t.nodes, Lower(t.buckets, i), t.buckets[i]);
      if InBucket(t.buckets, i, id) {
        BucketIndexUnique(t.buckets, id, i);
      }
    }
  }

  /** kadBucketHasRoom: the bucket holds fewer than bucketSize records. */
  function HasRoom(t: Table, b: Id): (r: Result<bool, RoutingError>)
    ensures r.Err? <==> b !in t.buckets
    ensures r.Ok? ==> (r.value <==> |NodeIdsWithin(t, b).value| < t.bucketSize)
  {
    match NodeIdsWithin(t, b)
    case Err(e) => Err(e)
    case Ok(ids) => Ok(|ids| < t.bucketSize)
  }

  /** kadBucketContainsLocalNode: whether the local node's id lies in bucket b. */
  function ContainsLocal(t: Table, b: Id): (r: bool)
    requires WellFormed(t.buckets)
    ensures r <==> exists i :: 0 <= i < |t.buckets| && t.buckets[i] == b && InBucket(t.buckets, i, t.self)
  {
    var j := BucketIndex(t.buckets, t.self);
    assert forall i :: 0 <= i < |t.buckets| && InBucket(t.buckets, i, t.self) ==> i == j by {
      forall i | 0 <= i < |t.buckets| && InBucket(t.buckets, i, t.self)
        ensures i == j
      {
        BucketIndexUnique(t.buckets, t.self, i);
      }
    }
    KBucketId(t, t.self) == b
  }

  /**
   * addToReplacementCache: append the candidate to the bucket's cache, dropping
   * the oldest candidate once the cache holds more than rcBucketSize.
   */
  function AddToCache(cache: map<Id, seq<Node>>, b: Id, n: Node, rcBucketSize: nat): map<Id, seq<Node>> {
    var ns := (if b in cache then cache[b] else []) + [n];
    cache[b := if |ns| > rcBucketSize then ns[1..] else ns]
  }

  /** The new candidate list of bucket b: the newest min(old + 1, rcBucketSize) candidates. */
  lemma AddToCacheEntry(cache: map<Id, seq<Node>>, b: Id, n: Node, rc: nat)
    requires b in cache ==> |cache[b]| <= rc
    ensures var c' := AddToCache(cache, b, n, rc);
      var old_ := if b in cache then cache[b] else [];
      b in c' &&
      |c'[b]| == (if |old_| + 1 <= rc then |old_| + 1 else rc) &&
      c'[b] == (old_ + [n])[|old_| + 1 - |c'[b]|..] &&
      (rc >= 1 ==> c'[b][|c'[b]| - 1] == n)
  {
    var old_ := if b in cache then cache[b] else [];
    var ns := old_ + [n];
    if |ns| > rc {
      assert AddToCache(cache, b, n, rc)[b] == ns[1..];
      assert |old_| + 1 - rc == 1;
    } else {
      assert AddToCache(cache, b, n, rc)[b] == ns;
      assert ns[0..] == ns;
    }
  }

  /** Adding a candidate to bucket b leaves every other bucket's candidates as they were. */
  lemma AddToCacheOthers(cache: map<Id, seq<Node>>, b: Id, n: Node, rc: nat)
    ensures var c' := AddToCache(cache, b, n, rc);
      c'.Keys == cache.Keys + {b} &&
      forall c :: c in cache && c != b ==> c'[c] == cache[c]
  {
  }

  /** A bounded cache stays bounded: no bucket ever holds more than rcBucketSize candidates. */
  lemma AddToCacheBounded(cache: map<Id, seq<Node>>, b: Id, n: Node, rc: nat)
    requires forall c :: c in cache ==> |cache[c]| <= rc
    ensures var c' := AddToCache(cache, b, n, rc);
      (forall c :: c in c' ==> |c'[c]| <= rc) &&
      c'.Keys == cache.Keys + {b} &&
      (forall c :: c in cache && c != b ==> c'[c] == cache[c])
  {
    AddToCacheEntry(cache, b, n, rc);
    AddToCacheOthers(cache, b, n, rc);
    var c' := AddToCache(cache, b, n, rc);
    forall c | c in c'
      ensures |c'[c]| <= rc
    {
      if c != b {
        assert c in cache;
      }
    }
  }

  /**
   * One step of addNode on a full bucket that holds the local node: the bucket id
   * at its leaf depth is split and the new bucket id inserted; Err when the split
   * would not cut the bucket in two (which a dyadic partition never meets).
   */
  function SplitStep(t: Table, i: nat): (r: Result<Id, RoutingError>)
    requires WellFormed(t.buckets) && i < |t.buckets|
    ensures r.Ok? ==> Lower(t.buckets, i) < r.value < t.buckets[i]
  {
    var bs := t.buckets;
    match LeafDepth(bs, bs[i])
    case Err(e) => Err(e)
    case Ok(depth) =>
      if depth >= 16 then Err(CannotSplit)
      else
        var s := SplitBucket(bs[i], depth);
        if s <= Lower(bs, i) || s >= bs[i] then Err(CannotSplit) else Ok(s)
  }

  /**
   * addNode: the local node is always stored; a bucket with room takes the node;
   * a full bucket without the local node passes the node to its replacement cache
   * and reports false; a full bucket with the local node is split and the
   * insertion retried.
   */
  function AddNode(t: Table, n: Node): Result<(bool, Table), RoutingError>
    requires WellFormed(t.buckets)
    decreases Size(t.buckets, BucketIndex(t.buckets, n.id))
  {
    var bs := t.buckets;
    if n.id == t.self then
      Ok((true, t.(buckets := InsertBoundary(bs, MAX_ID), nodes := Put(t.nodes, n))))
    else
      var i := BucketIndex(bs, n.id);
      if |Members(t, i)| < t.bucketSize then
        Ok((true, t.(nodes := Put(t.nodes, n))))
      else if !InBucket(bs, i, t.self) then
        Ok((false, t.(cache := AddToCache(t.cache, bs[i], n, t.rcBucketSize))))
      else
        match SplitStep(t, i)
        case Err(e) => Err(e)
        case Ok(s) =>
          SplitShrinks(bs, i, s, n.id);
          AddNode(t.(buckets := InsertBoundary(bs, s)), n)
  }

  /** Inserting a split point inside the bucket of id leaves id in a strictly smaller bucket. */
  lemma SplitShrinks(bs: seq<Id>, i: nat, s: Id, id: Id)
    requires WellFormed(bs) && i < |bs| && Lower(bs, i) < s < bs[i] && InBucket(bs, i, id)
    ensures WellFormed(InsertBoundary(bs, s))
    ensures Size(InsertBoundary(bs, s), BucketIndex(InsertBoundary(bs, s), id)) < Size(bs, i)
  {
    InsertBoundaryAt(bs, s, i);
    SplitRanges(bs, i, s);
    var bs' := InsertAt(bs, i, s);
    if id <= s {
      BucketIndexUnique(bs', id, i);
    } else {
      BucketIndexUnique(bs', id, i + 1);
    }
  }

  /** Creating the first bucket again, as addNode of the local node does, changes no bucket id. */
  lemma AddLocalKeepsBuckets(t: Table)
    requires WellFormed(t.buckets)
    ensures InsertBoundary(t.buckets, MAX_ID) == t.buckets
  {
    InsertBoundaryPresent(t.buckets, MAX_ID);
  }

  /** removeNode: drop the record and promote the newest candidate cached for its bucket. */
  function RemoveNode(t: Table, id: Id): Table
    requires WellFormed(t.buckets)
  {
    if Find(t.nodes, id).None? then t
    else
      var b := KBucketId(t, id);
      var rest := Delete(t.nodes, id);
      if b !in t.cache || |t.cache[b]| == 0 then t.(nodes := rest)
      else
        var c := t.cache[b];
        t.(nodes := Put(rest, c[|c| - 1]), cache := t.cache[b := c[..|c| - 1]])
  }

  /** updateNode: overwrite the record of a node the table holds. */
  function UpdateNode(t: Table, n: Node): (r: Result<Table, RoutingError>)
    ensures r.Err? <==> Find(t.nodes, n.id).None?
    ensures r.Err? ==> r.error == NodeNotFound
  {
    if Find(t.nodes, n.id).None? then Err(NodeNotFound) else Ok(t.(nodes := Put(t.nodes, n)))
  }

  /** createOrUpdateKBucket: make b a bucket id (its timestamp is not modelled). */
  function CreateOrUpdateKBucket(t: Table, b: Id): (r: Table)
    requires WellFormed(t.buckets)
    ensures WellFormed(r.buckets)
    ensures forall c :: c in r.buckets <==> c in t.buckets || c == b
    ensures r.nodes == t.nodes && r.cache == t.cache
  {
    InsertBoundaryAscending(t.buckets, b);
    InsertBoundaryWellFormed(t.buckets, b);
    t.(buckets := InsertBoundary(t.buckets, b))
  }

  /**
   * In a dyadic partition the split step on a bucket of at least two ids succeeds,
   * cutting the bucket into its two halves, and the partition stays dyadic.
   */
  lemma SplitStepOfDyadic(t: Table, i: nat) returns (s: Id)
    requires WellFormed(t.buckets) && Dyadic(t.buckets) && i < |t.buckets| && Size(t.buckets, i) >= 2
    ensures SplitStep(t, i) == Ok(s) && s == Lower(t.buckets, i) + Size(t.buckets, i) / 2
    ensures InsertBoundary(t.buckets, s) == InsertAt(t.buckets, i, s)
    ensures WellFormed(InsertBoundary(t.buckets, s)) && Dyadic(InsertBoundary(t.buckets, s))
  {
    var bs := t.buckets;
    LeafDepthOfDyadic(bs, i);
    SplitPointOfDyadic(bs, i);
    s := SplitKeepsDyadic(bs, i);
    var depth := 16 - Log2(Size(bs, i));
    assert LeafDepth(bs, bs[i]) == Ok(depth) && 0 <= depth < 16;
    assert SplitBucket(bs[i], depth) == s && Lower(bs, i) < s < bs[i];
    assert SplitStep(t, i) == Ok(s);
    var bs' := InsertAt(bs, i, s);
    assert WellFormed(bs') && Dyadic(bs');
    InsertBoundaryAt(bs, s, i);
    assert InsertBoundary(bs, s) == bs';
  }

  /**
   * With a dyadic partition addNode never fails; the partition stays dyadic and
   * only gains bucket ids.  An added node is stored; a node that is not added
   * leaves the store as it was, its bucket is full and does not hold the local
   * node, and the node joins that bucket's replacement cache.
   */
  lemma {:induction false} AddNodeOk(t: Table, n: Node)
    requires WellFormed(t.buckets) && Dyadic(t.buckets)
    ensures AddNode(t, n).Ok?
    ensures var (added, t') := AddNode(t, n).value;
      WellFormed(t'.buckets) && Dyadic(t'.buckets) &&
      t'.self == t.self && t'.bucketSize == t.bucketSize && t'.rcBucketSize == t.rcBucketSize &&
      (forall b :: b in t.buckets ==> b in t'.buckets) &&
      (added ==> t'.nodes == Put(t.nodes, n) && t'.cache == t.cache) &&
      (!added ==> (n.id != t.self && t'.nodes == t.nodes &&
        var b := KBucketId(t', n.id);
        !ContainsLocal(t', b) && HasRoom(t', b) == Ok(false) &&
        t'.cache == AddToCache(t.cache, b, n, t.rcBucketSize)))
    decreases Size(t.buckets, BucketIndex(t.buckets, n.id))
  {
    var bs := t.buckets;
    if n.id == t.self {
      AddLocalKeepsBuckets(t);
      assert AddNode(t, n) == Ok((true, t.(nodes := Put(t.nodes, n))));
    } else {
      var i := BucketIndex(bs, n.id);
      if |Members(t, i)| < t.bucketSize {
        assert AddNode(t, n) == Ok((true, t.(nodes := Put(t.nodes, n))));
      } else if !InBucket(bs, i, t.self) {
        var t' := t.(cache := AddToCache(t.cache, bs[i], n, t.rcBucketSize));
        assert AddNode(t, n) == Ok((false, t'));
        IndexOfBoundary(bs, i);
        BucketIndexUnique(bs, t.self, BucketIndex(bs, t.self));
      } else {
        var s := SplitStepOfDyadic(t, i);
        var t1 := t.(buckets := InsertBoundary(bs, s));
        SplitShrinks(bs, i, s, n.id);
        assert AddNode(t, n) == AddNode(t1, n);
        AddNodeOk(t1, n);
        assert forall b :: b in bs ==> b in t1.buckets by {
          InsertBoundaryAscending(bs, s);
        }
      }
    }
  }

  /** Halving bucket i at s keeps every bucket within its capacity. */
  lemma SplitFits(bs: seq<Id>, ns: seq<Node>, k: nat, i: nat, s: Id)
    requires WellFormed(bs) && Fits(bs, ns, k) && i < |bs| && Lower(bs, i) < s < bs[i]
    ensures WellFormed(InsertAt(bs, i, s)) && Fits(InsertAt(bs, i, s), ns, k)
  {
    var bs' := InsertAt(bs, i, s);
    SplitRanges(bs, i, s);
    forall j | 0 <= j < |bs'|
      ensures |InRange(ns, Lower(bs', j), bs'[j])| <= k
    {
      if j < i {
        assert Lower(bs', j) == Lower(bs, j) && bs'[j] == bs[j];
      } else if j == i {
        InRangeShrink(ns, Lower(bs, i), bs[i], Lower(bs, i), s);
        assert |InRange(ns, Lower(bs, i), bs[i])| <= k;
      } else if j == i + 1 {
        InRangeShrink(ns, Lower(bs, i), bs[i], s, bs[i]);
        assert |InRange(ns, Lower(bs, i), bs[i])| <= k;
      } else {
        assert Lower(bs', j) == Lower(bs, j - 1) && bs'[j] == bs[j - 1];
      }
    }
  }

  /** Storing a node in bucket i, which has room, keeps every bucket within its capacity. */
  lemma PutFits(bs: seq<Id>, ns: seq<Node>, k: nat, i: nat, n: Node)
    requires WellFormed(bs) && Fits(bs, ns, k) && i < |bs|
    requires InBucket(bs, i, n.id) && |InRange(ns, Lower(bs, i), bs[i])| < k
    ensures Fits(bs, Put(ns, n), k)
  {
    forall j | 0 <= j < |bs|
      ensures |InRange(Put(ns, n), Lower(bs, j), bs[j])| <= k
    {
      if j == i {
        InRangePutInside(ns, n, Lower(bs, i), bs[i]);
      } else {
        InBucketDisjoint(bs, i, j, n.id);
        InRangePutOutside(ns, n, Lower(bs, j), bs[j]);
      }
    }
  }

  /** Replacing a stored record keeps every bucket within its capacity. */
  lemma PutPresentFits(bs: seq<Id>, ns: seq<Node>, k: nat, n: Node)
    requires WellFormed(bs) && Fits(bs, ns, k) && Sorted(ns) && Find(ns, n.id).Some?
    ensures Fits(bs, Put(ns, n), k)
  {
    forall j | 0 <= j < |bs|
      ensures |InRange(Put(ns, n), Lower(bs, j), bs[j])| <= k
    {
      InRangePutPresent(ns, n, Lower(bs, j), bs[j]);
    }
  }

  /** Replacing a stored record changes no bucket's number of records. */
  lemma PutPresentCounts(t: Table, n: Node)
    requires Valid(t) && Find(t.nodes, n.id).Some?
    ensures forall j :: 0 <= j < |t.buckets| ==> |Members(t.(nodes := Put(t.nodes, n)), j)| == |Members(t, j)|
  {
    forall j | 0 <= j < |t.buckets|
      ensures |Members(t.(nodes := Put(t.nodes, n)), j)| == |Members(t, j)|
    {
      InRangePutPresent(t.nodes, n, Lower(t.buckets, j), t.buckets[j]);
    }
  }

  /**
   * addNode keeps every bucket within bucketSize records, every replacement cache
   * within rcBucketSize candidates, and the store sorted, provided the local node,
   * which is stored unconditionally, is already stored when it is the one added.
   */
  /** From a dyadic partition over a sorted store, addNode succeeds and keeps both. */
  lemma AddNodeKeepsValid(t: Table, n: Node)
    requires Valid(t) && Dyadic(t.buckets)
    ensures AddNode(t, n).Ok?
    ensures Valid(AddNode(t, n).value.1) && Dyadic(AddNode(t, n).value.1.buckets)
  {
    AddNodeOk(t, n);
    if AddNode(t, n).value.0 {
      PutContents(t.nodes, n);
    }
  }

  lemma {:induction false} AddNodeCapacity(t: Table, n: Node)
    requires Valid(t) && Dyadic(t.buckets) && Capacity(t) && CacheBounded(t)
    requires n.id == t.self ==> Find(t.nodes, n.id).Some?
    ensures var r := AddNode(t, n);
      r.Ok? ==> Valid(r.value.1) && Capacity(r.value.1) && CacheBounded(r.value.1)
    decreases Size(t.buckets, BucketIndex(t.buckets, n.id))
  {
    var bs := t.buckets;
    if n.id == t.self {
      AddLocalKeepsBuckets(t);
      PutContents(t.nodes, n);
      PutPresentFits(bs, t.nodes, t.bucketSize, n);
      assert AddNode(t, n).value.1 == t.(nodes := Put(t.nodes, n));
    } else {
      var i := BucketIndex(bs, n.id);
      if |Members(t, i)| < t.bucketSize {
        PutContents(t.nodes, n);
        PutFits(bs, t.nodes, t.bucketSize, i, n);
      } else if !InBucket(bs, i, t.self) {
        AddToCacheBounded(t.cache, bs[i], n, t.rcBucketSize);
      } else {
        var s := SplitStepOfDyadic(t, i);
        var t1 := t.(buckets := InsertBoundary(bs, s));
        SplitShrinks(bs, i, s, n.id);
        SplitFits(bs, t.nodes, t.bucketSize, i, s);
        AddNodeCapacity(t1, n);
        assert AddNode(t, n) == AddNode(t1, n);
      }
    }
  }

  /**
   * removeNode on an absent id changes nothing.  Otherwise the record is gone and
   * every other lookup is as before, except that the newest candidate cached for
   * the node's bucket, if any, is stored and leaves the cache.
   */
  lemma RemoveNodeEffect(t: Table, id: Id)
    requires Valid(t)
    ensures Find(t.nodes, id).None? ==> RemoveNode(t, id) == t
    ensures var t' := RemoveNode(t, id);
      var b := KBucketId(t, id);
      Valid(t') && t'.buckets == t.buckets &&
      (Find(t.nodes, id).Some? && (b !in t.cache || |t.cache[b]| == 0) ==>
        t'.cache == t.cache && forall x :: Find(t'.nodes, x) == if x == id then None else Find(t.nodes, x)) &&
      (Find(t.nodes, id).Some? && b in t.cache && |t.cache[b]| > 0 ==>
        var c := t.cache[b];
        var p := c[|c| - 1];
        t'.cache == t.cache[b := c[..|c| - 1]] && Find(t'.nodes, p.id) == Some(p) &&
        forall x :: x != p.id ==> Find(t'.nodes, x) == if x == id then None else Find(t.nodes, x))
  {
    if Find(t.nodes, id).Some? {
      DeleteContents(t.nodes, id);
      var rest := Delete(t.nodes, id);
      forall x
        ensures Find(rest, x) == if x == id then None else Find(t.nodes, x)
      {
        FindDelete(t.nodes, id, x);
      }
      var b := KBucketId(t, id);
      if b in t.cache && |t.cache[b]| > 0 {
        var c := t.cache[b];
        PutContents(rest, c[|c| - 1]);
        forall x
          ensures Find(Put(rest, c[|c| - 1]), x) == if x == c[|c| - 1].id then Some(c[|c| - 1]) else Find(rest, x)
        {
          FindPut(rest, c[|c| - 1], x);
        }
      }
    }
  }

  /**
   * removeNode keeps every bucket within capacity and every cache bounded when the
   * promoted candidate still belongs to the vacated bucket.
   */
  lemma RemoveNodeCapacity(t: Table, id: Id)
    requires Valid(t) && Capacity(t) && CacheBounded(t)
    requires var b := KBucketId(t, id);
      b in t.cache && |t.cache[b]| > 0 ==> KBucketId(t, t.cache[b][|t.cache[b]| - 1].id) == b
    ensures Capacity(RemoveNode(t, id)) && CacheBounded(RemoveNode(t, id))
  {
    RemoveNodeFits(t, id);
    RemoveNodeCacheBounded(t, id);
  }

  lemma RemoveNodeFits(t: Table, id: Id)
    requires Valid(t) && Capacity(t)
    requires var b := KBucketId(t, id);
      b in t.cache && |t.cache[b]| > 0 ==> KBucketId(t, t.cache[b][|t.cache[b]| - 1].id) == b
    ensures Capacity(RemoveNode(t, id))
  {
    if Find(t.nodes, id).Some? {
      var b := KBucketId(t, id);
      var rest := Delete(t.nodes, id);
      assert RemoveNode(t, id).buckets == t.buckets && RemoveNode(t, id).bucketSize == t.bucketSize;
      if b in t.cache && |t.cache[b]| > 0 {
        var c := t.cache[b];
        PromoteFits(t, id, c[|c| - 1]);
        assert RemoveNode(t, id).nodes == Put(rest, c[|c| - 1]);
      } else {
        DeleteFits(t.buckets, t.nodes, t.bucketSize, id);
        assert RemoveNode(t, id).nodes == rest;
      }
    }
  }

  /** Deleting a stored record and putting in a candidate of the same bucket keeps every bucket within capacity. */
  lemma PromoteFits(t: Table, id: Id, p: Node)
    requires Valid(t) && Capacity(t) && Find(t.nodes, id).Some?
    requires KBucketId(t, p.id) == KBucketId(t, id)
    ensures Fits(t.buckets, Put(Delete(t.nodes, id), p), t.bucketSize)
  {
    var bs := t.buckets;
    var i := BucketIndex(bs, id);
    assert Fits(bs, t.nodes, t.bucketSize);
    DeleteFits(bs, t.nodes, t.bucketSize, id);
    SameBucket(bs, id, p.id);
    InRangeCountDown(t.nodes, id, Lower(bs, i), bs[i]);
    PutFits(bs, Delete(t.nodes, id), t.bucketSize, i, p);
  }

  lemma RemoveNodeCacheBounded(t: Table, id: Id)
    requires Valid(t) && CacheBounded(t)
    ensures CacheBounded(RemoveNode(t, id))
  {
  }

  /** Two ids with the same bucket id have the same bucket index. */
  lemma SameBucket(bs: seq<Id>, a: Id, b: Id)
    requires WellFormed(bs) && bs[BucketIndex(bs, a)] == bs[BucketIndex(bs, b)]
    ensures BucketIndex(bs, a) == BucketIndex(bs, b)
  {
  }

  /** Deleting a record keeps every bucket within its capacity. */
  lemma DeleteFits(bs: seq<Id>, ns: seq<Node>, k: nat, id: Id)
    requires WellFormed(bs) && Fits(bs, ns, k)
    ensures Fits(bs, Delete(ns, id), k)
  {
    forall j | 0 <= j < |bs|
      ensures |InRange(Delete(ns, id), Lower(bs, j), bs[j])| <= k
    {
      InRangeDelete(ns, id, Lower(bs, j), bs[j]);
    }
  }

  /**
   * updateNode on a stored node replaces its record and nothing else: the other
   * lookups, the bucket ids, the caches and every bucket's number of records stay.
   */
  lemma UpdateNodeEffect(t: Table, n: Node)
    requires Valid(t) && Find(t.nodes, n.id).Some?
    ensures UpdateNode(t, n).Ok?
    ensures var t' := UpdateNode(t, n).value;
      Valid(t') && t'.buckets == t.buckets && t'.cache == t.cache &&
      Find(t'.nodes, n.id) == Some(n) &&
      (forall x :: x != n.id ==> Find(t'.nodes, x) == Find(t.nodes, x)) &&
      (forall j :: 0 <= j < |t.buckets| ==> |Members(t', j)| == |Members(t, j)|)
  {
    PutContents(t.nodes, n);
    PutPresentCounts(t, n);
    forall x
      ensures Find(Put(t.nodes, n), x) == if x == n.id then Some(n) else Find(t.nodes, x)
    {
      FindPut(t.nodes, n, x);
    }
  }

  /**
   * One round of addNode's loop on a full bucket holding the local node: the
   * dyadic bucket is halved at its midpoint and the insertion retried.
   */
  lemma AddNodeSplits(t: Table, n: Node, i: nat, s: Id, bs': seq<Id>)
    requires WellFormed(t.buckets) && Dyadic(t.buckets) && n.id != t.self
    requires i < |t.buckets| && InBucket(t.buckets, i, n.id) && InBucket(t.buckets, i, t.self)
    requires |Members(t, i)| >= t.bucketSize
    requires s == Lower(t.buckets, i) + Size(t.buckets, i) / 2 && bs' == InsertAt(t.buckets, i, s)
    ensures WellFormed(bs') && Dyadic(bs')
    ensures AddNode(t, n) == AddNode(t.(buckets := bs'), n)
  {
    BucketIndexUnique(t.buckets, n.id, i);
    assert Size(t.buckets, i) >= 2;
    var s' := SplitStepOfDyadic(t, i);
    assert s' == s;
    AddNodeRetries(t, n, s);
  }

  /** addNode on a full bucket holding the local node retries after a successful split step. */
  lemma AddNodeRetries(t: Table, n: Node, s: Id)
    requires WellFormed(t.buckets) && n.id != t.self
    requires var i := BucketIndex(t.buckets, n.id);
      |Members(t, i)| >= t.bucketSize && InBucket(t.buckets, i, t.self) && SplitStep(t, i) == Ok(s)
    ensures WellFormed(InsertBoundary(t.buckets, s))
    ensures AddNode(t, n) == AddNode(t.(buckets := InsertBoundary(t.buckets, s)), n)
  {
    SplitShrinks(t.buckets, BucketIndex(t.buckets, n.id), s, n.id);
  }

  /** addNode with a target bucket that has room stores the node. */
  lemma AddNodeRoom(t: Table, n: Node, i: nat)
    requires WellFormed(t.buckets) && n.id != t.self
    requires i < |t.buckets| && InBucket(t.buckets, i, n.id) && |Members(t, i)| < t.bucketSize
    ensures AddNode(t, n) == Ok((true, t.(nodes := Put(t.nodes, n))))
  {
    BucketIndexUnique(t.buckets, n.id, i);
  }

  /** addNode with a full target bucket without the local node caches the node. */
  lemma AddNodeCaches(t: Table, n: Node, i: nat)
    requires WellFormed(t.buckets) && n.id != t.self
    requires i < |t.buckets| && InBucket(t.buckets, i, n.id) && |Members(t, i)| >= t.bucketSize
    requires !InBucket(t.buckets, i, t.self)
    ensures AddNode(t, n) == Ok((false, t.(cache := AddToCache(t.cache, t.buckets[i], n, t.rcBucketSize))))
  {
    BucketIndexUnique(t.buckets, n.id, i);
  }
}
