/**
 * The worked scenario of the routing table's addNode: a table whose local node is
 * "OO" with bucketSize 6 and rcBucketSize 2.  A node named by a two-character
 * string has those two characters as the first two bytes of its id, so "OO" is
 * 0x4F4F; only the first two bytes take part in bucket and distance decisions.
 * Ids: "9O" 394F, ":O" 3A4F, ";O" 3B4F, "=O" 3D4F, ">O" 3E4F, "?O" 3F4F,
 * "@O" 404F, "JO" 4A4F, "KO" 4B4F, "LO" 4C4F, "MO" 4D4F, "NO" 4E4F, "OO" 4F4F,
 * "PO" 504F, "QO" 514F, "SO" 534F, "8O" 384F.
 */
module KadFixtures {
  import opened Wrappers
  import opened KadIds
  import opened KadPartition
  import opened KadStore
  import opened KadTable

  /** The table once "LO" to "QO" have joined the local node's only bucket, under bucket ids bs. */
  function FirstSix(bs: seq<Id>): Table {
    Table(0x4F4F, 6, 2, bs,
      [Node(0x4C4F, None), Node(0x4D4F, None), Node(0x4E4F, None),
       Node(0x4F4F, None), Node(0x504F, None), Node(0x514F, None)], map[])
  }

  /** "PO" joins the fresh table's only bucket, which has room. */
  lemma AddNodeFirstFixture()
    ensures AddNode(NewTable(Node(0x4F4F, None), 6, 2), Node(0x504F, None)) ==
      Ok((true, Table(0x4F4F, 6, 2, [0xFFFF], [Node(0x4F4F, None), Node(0x504F, None)], map[])))
  {
    var t := Table(0x4F4F, 6, 2, [0xFFFF], [Node(0x4F4F, None)], map[]);
    assert t == NewTable(Node(0x4F4F, None), 6, 2);
    BucketIndexUnique([0xFFFF], 0x504F, 0);
    assert |Members(t, 0)| == 1;
    assert Put(t.nodes, Node(0x504F, None)) == [Node(0x4F4F, None), Node(0x504F, None)];
  }

  /** Adding "SO": the whole space is split at 7FFF. */
  lemma SplitFixtureStep1()
    ensures Dyadic([0x7FFF, 0xFFFF])
    ensures AddNode(FirstSix([0xFFFF]), Node(0x534F, None)) == AddNode(FirstSix([0x7FFF, 0xFFFF]), Node(0x534F, None))
  {
    SingleBucketDyadic();
    Step1Splits();
    AddNodeSplits(FirstSix([0xFFFF]), Node(0x534F, None), 0, 0x7FFF, [0x7FFF, 0xFFFF]);
  }

  /** Adding "SO": bucket 7FFF is split at 3FFF. */
  lemma SplitFixtureStep2()
    requires Dyadic([0x7FFF, 0xFFFF])
    ensures Dyadic([0x3FFF, 0x7FFF, 0xFFFF])
    ensures AddNode(FirstSix([0x7FFF, 0xFFFF]), Node(0x534F, None)) == AddNode(FirstSix([0x3FFF, 0x7FFF, 0xFFFF]), Node(0x534F, None))
  {
    Step2Splits();
    AddNodeSplits(FirstSix([0x7FFF, 0xFFFF]), Node(0x534F, None), 0, 0x3FFF, [0x3FFF, 0x7FFF, 0xFFFF]);
  }

  /** Adding "SO": bucket 7FFF, now above 3FFF, is split at 5FFF. */
  lemma SplitFixtureStep3()
    requires Dyadic([0x3FFF, 0x7FFF, 0xFFFF])
    ensures Dyadic([0x3FFF, 0x5FFF, 0x7FFF, 0xFFFF])
    ensures AddNode(FirstSix([0x3FFF, 0x7FFF, 0xFFFF]), Node(0x534F, None)) == AddNode(FirstSix([0x3FFF, 0x5FFF, 0x7FFF, 0xFFFF]), Node(0x534F, None))
  {
    Step3Splits();
    AddNodeSplits(FirstSix([0x3FFF, 0x7FFF, 0xFFFF]), Node(0x534F, None), 1, 0x5FFF, [0x3FFF, 0x5FFF, 0x7FFF, 0xFFFF]);
  }

  /** Adding "SO": bucket 5FFF is split at 4FFF. */
  lemma SplitFixtureStep4()
    requires Dyadic([0x3FFF, 0x5FFF, 0x7FFF, 0xFFFF])
    ensures Dyadic([0x3FFF, 0x4FFF, 0x5FFF, 0x7FFF, 0xFFFF])
    ensures AddNode(FirstSix([0x3FFF, 0x5FFF, 0x7FFF, 0xFFFF]), Node(0x534F, None)) == AddNode(FirstSix([0x3FFF, 0x4FFF, 0x5FFF, 0x7FFF, 0xFFFF]), Node(0x534F, None))
  {
    Step4Splits();
    AddNodeSplits(FirstSix([0x3FFF, 0x5FFF, 0x7FFF, 0xFFFF]), Node(0x534F, None), 1, 0x4FFF, [0x3FFF, 0x4FFF, 0x5FFF, 0x7FFF, 0xFFFF]);
  }

  /**
   * Adding n to t splits bucket i at s into bs': the conditions under which
   * addNode splits a full bucket holding the local node.
   */
  predicate SplitsFull(t: Table, n: Node, i: nat, s: Id, bs': seq<Id>) {
    WellFormed(t.buckets) && n.id != t.self && i < |t.buckets| &&
    InBucket(t.buckets, i, n.id) && InBucket(t.buckets, i, t.self) &&
    |Members(t, i)| >= t.bucketSize &&
    s == Lower(t.buckets, i) + Size(t.buckets, i) / 2 && bs' == InsertAt(t.buckets, i, s)
  }

  lemma Step1Splits()
    ensures SplitsFull(FirstSix([0xFFFF]), Node(0x534F, None), 0, 0x7FFF, [0x7FFF, 0xFFFF])
  {
    var t := FirstSix([0xFFFF]);
    assert t.nodes == SixLow() + SixHigh();
    SixWithin(Lower(t.buckets, 0), t.buckets[0]);
  }

  lemma Step2Splits()
    ensures SplitsFull(FirstSix([0x7FFF, 0xFFFF]), Node(0x534F, None), 0, 0x3FFF, [0x3FFF, 0x7FFF, 0xFFFF])
  {
    var t := FirstSix([0x7FFF, 0xFFFF]);
    assert t.nodes == SixLow() + SixHigh();
    SixWithin(Lower(t.buckets, 0), t.buckets[0]);
  }

  lemma Step3Splits()
    ensures SplitsFull(FirstSix([0x3FFF, 0x7FFF, 0xFFFF]), Node(0x534F, None), 1, 0x5FFF, [0x3FFF, 0x5FFF, 0x7FFF, 0xFFFF])
  {
    var t := FirstSix([0x3FFF, 0x7FFF, 0xFFFF]);
    assert WellFormed(t.buckets);
    assert InBucket(t.buckets, 1, 0x534F) && InBucket(t.buckets, 1, t.self);
    assert InsertAt(t.buckets, 1, 0x5FFF) == [0x3FFF, 0x5FFF, 0x7FFF, 0xFFFF];
    assert t.nodes == SixLow() + SixHigh();
    SixWithin(Lower(t.buckets, 1), t.buckets[1]);
  }

  lemma Step4Splits()
    ensures SplitsFull(FirstSix([0x3FFF, 0x5FFF, 0x7FFF, 0xFFFF]), Node(0x534F, None), 1, 0x4FFF, [0x3FFF, 0x4FFF, 0x5FFF, 0x7FFF, 0xFFFF])
  {
    var t := FirstSix([0x3FFF, 0x5FFF, 0x7FFF, 0xFFFF]);
    assert WellFormed(t.buckets);
    assert InBucket(t.buckets, 1, 0x534F) && InBucket(t.buckets, 1, t.self);
    assert InsertAt(t.buckets, 1, 0x4FFF) == [0x3FFF, 0x4FFF, 0x5FFF, 0x7FFF, 0xFFFF];
    assert t.nodes == SixLow() + SixHigh();
    SixWithin(Lower(t.buckets, 1), t.buckets[1]);
  }

  /** Adding "SO" after the splits: bucket 5FFF holds only "PO" and "QO", so "SO" joins it. */
  lemma SplitFixtureRoom()
    ensures AddNode(FirstSix([0x3FFF, 0x4FFF, 0x5FFF, 0x7FFF, 0xFFFF]), Node(0x534F, None)) ==
      Ok((true, FirstSix([0x3FFF, 0x4FFF, 0x5FFF, 0x7FFF, 0xFFFF]).(nodes :=
        [Node(0x4C4F, None), Node(0x4D4F, None), Node(0x4E4F, None), Node(0x4F4F, None),
         Node(0x504F, None), Node(0x514F, None), Node(0x534F, None)])))
  {
    var t := FirstSix([0x3FFF, 0x4FFF, 0x5FFF, 0x7FFF, 0xFFFF]);
    MidSplitPoint();
    FirstSixRoom();
    assert InBucket(t.buckets, 2, 0x534F);
    AddNodeRoom(t, Node(0x534F, None), 2);
  }

  /** The records of FirstSix below and above 4FFF. */
  function SixLow(): seq<Node> {
    [Node(0x4C4F, None), Node(0x4D4F, None), Node(0x4E4F, None), Node(0x4F4F, None)]
  }

  function SixHigh(): seq<Node> {
    [Node(0x504F, None), Node(0x514F, None)]
  }

  /** Bucket 5FFF holds "PO" and "QO", and "SO" is stored after every record. */
  lemma FirstSixRoom()
    ensures var t := FirstSix([0x3FFF, 0x4FFF, 0x5FFF, 0x7FFF, 0xFFFF]);
      |Members(t, 2)| == 2 &&
      Put(t.nodes, Node(0x534F, None)) ==
        [Node(0x4C4F, None), Node(0x4D4F, None), Node(0x4E4F, None), Node(0x4F4F, None),
         Node(0x504F, None), Node(0x514F, None), Node(0x534F, None)]
  {
    var t := FirstSix([0x3FFF, 0x4FFF, 0x5FFF, 0x7FFF, 0xFFFF]);
    assert t.nodes == SixLow() + SixHigh();
    SixInRange();
    SixPut();
  }

  lemma SixInRange()
    ensures |InRange(SixLow() + SixHigh(), 0x4FFF, 0x5FFF)| == 2
  {
    var low := SixLow();
    assert low[0].id == 0x4C4F && low[1].id == 0x4D4F && low[2].id == 0x4E4F && low[3].id == 0x4F4F;
    InRangeAppend(low, SixHigh(), 0x4FFF, 0x5FFF);
    InRangeNone(low, 0x4FFF, 0x5FFF);
    InRangeAll(SixHigh(), 0x4FFF, 0x5FFF);
  }

  /** A bucket from below "LO" to at least "QO" holds all six records. */
  lemma SixWithin(lo: int, hi: int)
    requires lo < 0x4C4F && 0x514F <= hi
    ensures |InRange(SixLow() + SixHigh(), lo, hi)| == 6
  {
    var ns := SixLow() + SixHigh();
    assert ns[0].id == 0x4C4F && ns[1].id == 0x4D4F && ns[2].id == 0x4E4F && ns[3].id == 0x4F4F &&
      ns[4].id == 0x504F && ns[5].id == 0x514F && |ns| == 6;
    InRangeAll(ns, lo, hi);
  }

  lemma SixPut()
    ensures Put(SixLow() + SixHigh(), Node(0x534F, None)) ==
      [Node(0x4C4F, None), Node(0x4D4F, None), Node(0x4E4F, None), Node(0x4F4F, None),
       Node(0x504F, None), Node(0x514F, None), Node(0x534F, None)]
  {
    var ns := SixLow() + SixHigh();
    var n := Node(0x534F, None);
    assert ns[0].id == 0x4C4F && ns[1].id == 0x4D4F && ns[2].id == 0x4E4F && ns[3].id == 0x4F4F &&
      ns[4].id == 0x504F && ns[5].id == 0x514F && |ns| == 6;
    PutAppend(ns, [], n);
    assert ns + [] == ns && Put([], n) == [n];
  }

  /**
   * "SO" finds the local node's bucket full: it is split four times, at 7FFF,
   * 3FFF, 5FFF and 4FFF, and "SO" joins bucket 5FFF beside "PO" and "QO".
   */
  lemma AddNodeSplitFixture()
    ensures AddNode(FirstSix([0xFFFF]), Node(0x534F, None)) ==
      Ok((true, FirstSix([0x3FFF, 0x4FFF, 0x5FFF, 0x7FFF, 0xFFFF]).(nodes :=
        [Node(0x4C4F, None), Node(0x4D4F, None), Node(0x4E4F, None), Node(0x4F4F, None),
         Node(0x504F, None), Node(0x514F, None), Node(0x534F, None)])))
  {
    SplitFixtureStep1();
    SplitFixtureStep2();
    SplitFixtureStep3();
    SplitFixtureStep4();
    SplitFixtureRoom();
  }

  /** "9O", ":O", ";O", "=O", ">O" and "?O": the members of bucket 3FFF. */
  function Group3FFF(): seq<Node> {
    [Node(0x394F, None), Node(0x3A4F, None), Node(0x3B4F, None),
     Node(0x3D4F, None), Node(0x3E4F, None), Node(0x3F4F, None)]
  }

  /** "LO" to "SO": the records the table held before bucket 3FFF filled. */
  function AfterFirstSplit(): seq<Node> {
    [Node(0x4C4F, None), Node(0x4D4F, None), Node(0x4E4F, None), Node(0x4F4F, None),
     Node(0x504F, None), Node(0x514F, None), Node(0x534F, None)]
  }

  /** "JO" to "OO": the members of bucket 4FFF once full. */
  function Group4FFF(): seq<Node> {
    [Node(0x4A4F, None), Node(0x4B4F, None), Node(0x4C4F, None),
     Node(0x4D4F, None), Node(0x4E4F, None), Node(0x4F4F, None)]
  }

  /** "PO", "QO", "SO", "]O", "^O" and "_O": the members of bucket 5FFF once full. */
  function Group5FFF(): seq<Node> {
    [Node(0x504F, None), Node(0x514F, None), Node(0x534F, None),
     Node(0x5D4F, None), Node(0x5E4F, None), Node(0x5F4F, None)]
  }

  /** The id range of each group of records. */
  lemma Group3FFFIds()
    ensures forall i :: 0 <= i < |Group3FFF()| ==> 0x394F <= Group3FFF()[i].id <= 0x3F4F
  {
    var g := Group3FFF();
    assert g[0].id == 0x394F && g[1].id == 0x3A4F && g[2].id == 0x3B4F &&
      g[3].id == 0x3D4F && g[4].id == 0x3E4F && g[5].id == 0x3F4F;
  }

  lemma AfterFirstSplitIds()
    ensures forall i :: 0 <= i < |AfterFirstSplit()| ==> 0x4C4F <= AfterFirstSplit()[i].id <= 0x534F
  {
    var g := AfterFirstSplit();
    assert g[0].id == 0x4C4F && g[1].id == 0x4D4F && g[2].id == 0x4E4F && g[3].id == 0x4F4F &&
      g[4].id == 0x504F && g[5].id == 0x514F && g[6].id == 0x534F;
  }

  lemma Group4FFFIds()
    ensures forall i :: 0 <= i < |Group4FFF()| ==> 0x4A4F <= Group4FFF()[i].id <= 0x4F4F
  {
    var g := Group4FFF();
    assert g[0].id == 0x4A4F && g[1].id == 0x4B4F && g[2].id == 0x4C4F &&
      g[3].id == 0x4D4F && g[4].id == 0x4E4F && g[5].id == 0x4F4F;
  }

  lemma Group5FFFIds()
    ensures forall i :: 0 <= i < |Group5FFF()| ==> 0x504F <= Group5FFF()[i].id <= 0x5F4F
  {
    var g := Group5FFF();
    assert g[0].id == 0x504F && g[1].id == 0x514F && g[2].id == 0x534F &&
      g[3].id == 0x5D4F && g[4].id == 0x5E4F && g[5].id == 0x5F4F;
  }

  /** The table once "?O" to "9O" have filled bucket 3FFF after the splits for "SO". */
  function LowFull(): Table {
    Table(0x4F4F, 6, 2, [0x3FFF, 0x4FFF, 0x5FFF, 0x7FFF, 0xFFFF], Group3FFF() + AfterFirstSplit(), map[])
  }

  /**
   * "8O" falls in the full bucket 3FFF, which does not hold the local node: it is
   * not added, and it becomes the only candidate in that bucket's replacement cache.
   */
  lemma AddNodeCacheFixture()
    ensures AddNode(LowFull(), Node(0x384F, None)) ==
      Ok((false, LowFull().(cache := map[0x3FFF := [Node(0x384F, None)]])))
  {
    LowBucketFull();
    MidSplitPoint();
    assert InBucket(LowFull().buckets, 0, 0x384F) && !InBucket(LowFull().buckets, 0, 0x4F4F);
    AddNodeCaches(LowFull(), Node(0x384F, None), 0);
    FirstCandidate();
  }

  /** Bucket 3FFF holds its six members. */
  lemma LowBucketFull()
    ensures |Members(LowFull(), 0)| == 6
  {
    var t := LowFull();
    assert Lower(t.buckets, 0) == -1 && t.buckets[0] == 0x3FFF;
    assert Members(t, 0) == InRange(Group3FFF() + AfterFirstSplit(), -1, 0x3FFF);
    LowRange();
  }

  /** Of the records, exactly Group3FFF lies at or below 3FFF. */
  lemma LowRange()
    ensures InRange(Group3FFF() + AfterFirstSplit(), -1, 0x3FFF) == Group3FFF()
  {
    Group3FFFIds();
    AfterFirstSplitIds();
    InRangeSplit(Group3FFF(), AfterFirstSplit(), -1, 0x3FFF);
  }

  /** The first candidate for an empty cache is cached alone. */
  lemma FirstCandidate()
    ensures AddToCache(map[], 0x3FFF, Node(0x384F, None), 2) == map[0x3FFF := [Node(0x384F, None)]]
  {
    var ns := [] + [Node(0x384F, None)];
    assert ns == [Node(0x384F, None)];
  }

  /** The table once "KO", "JO", "]O", "^O" and "_O" have filled buckets 4FFF and 5FFF, under bucket ids bs. */
  function AllFull(bs: seq<Id>): Table {
    Table(0x4F4F, 6, 2, bs, Group3FFF() + Group4FFF() + Group5FFF(), map[0x3FFF := [Node(0x384F, None)]])
  }

  /** Bucket 4FFF holds its six members. */
  lemma MidBucketFull()
    ensures |Members(AllFull([0x3FFF, 0x4FFF, 0x5FFF, 0x7FFF, 0xFFFF]), 1)| == 6
  {
    Group3FFFIds();
    Group4FFFIds();
    Group5FFFIds();
    InRangeMiddle(Group3FFF(), Group4FFF(), Group5FFF(), 0x3FFF, 0x4FFF);
  }

  /** Adding "@O": bucket 4FFF, full and holding the local node, is split at 47FF. */
  lemma SecondSplitFixtureStep()
    requires Dyadic([0x3FFF, 0x4FFF, 0x5FFF, 0x7FFF, 0xFFFF])
    ensures AddNode(AllFull([0x3FFF, 0x4FFF, 0x5FFF, 0x7FFF, 0xFFFF]), Node(0x404F, None)) ==
      AddNode(AllFull([0x3FFF, 0x47FF, 0x4FFF, 0x5FFF, 0x7FFF, 0xFFFF]), Node(0x404F, None))
  {
    MidBucketFull();
    MidSplitPoint();
    AddNodeSplits(AllFull([0x3FFF, 0x4FFF, 0x5FFF, 0x7FFF, 0xFFFF]), Node(0x404F, None), 1, 0x47FF,
      [0x3FFF, 0x47FF, 0x4FFF, 0x5FFF, 0x7FFF, 0xFFFF]);
  }

  /** Bucket 4FFF covers (3FFF, 4FFF]; its midpoint 47FF goes in after bucket 3FFF. */
  lemma MidSplitPoint()
    ensures WellFormed([0x3FFF, 0x4FFF, 0x5FFF, 0x7FFF, 0xFFFF])
    ensures Lower([0x3FFF, 0x4FFF, 0x5FFF, 0x7FFF, 0xFFFF], 1) + Size([0x3FFF, 0x4FFF, 0x5FFF, 0x7FFF, 0xFFFF], 1) / 2 == 0x47FF
    ensures InsertAt([0x3FFF, 0x4FFF, 0x5FFF, 0x7FFF, 0xFFFF], 1, 0x47FF) == [0x3FFF, 0x47FF, 0x4FFF, 0x5FFF, 0x7FFF, 0xFFFF]
  {
    var bs: seq<Id> := [0x3FFF, 0x4FFF, 0x5FFF, 0x7FFF, 0xFFFF];
    assert bs[..1] == [0x3FFF] && bs[1..] == [0x4FFF, 0x5FFF, 0x7FFF, 0xFFFF];
  }

  /** Adding "@O" after the split: the new bucket 47FF is empty, so "@O" joins it. */
  lemma SecondSplitFixtureRoom()
    ensures AddNode(AllFull([0x3FFF, 0x47FF, 0x4FFF, 0x5FFF, 0x7FFF, 0xFFFF]), Node(0x404F, None)) ==
      Ok((true, AllFull([0x3FFF, 0x47FF, 0x4FFF, 0x5FFF, 0x7FFF, 0xFFFF]).(nodes :=
        Group3FFF() + [Node(0x404F, None)] + Group4FFF() + Group5FFF())))
  {
    var ns := Group3FFF() + Group4FFF() + Group5FFF();
    InRangeNone(ns, 0x3FFF, 0x47FF);
    AddNodeRoom(AllFull([0x3FFF, 0x47FF, 0x4FFF, 0x5FFF, 0x7FFF, 0xFFFF]), Node(0x404F, None), 1);
    PutBetween();
  }

  /** "@O" is stored between bucket 3FFF's members and bucket 4FFF's. */
  lemma PutBetween()
    ensures Put(Group3FFF() + Group4FFF() + Group5FFF(), Node(0x404F, None)) ==
      Group3FFF() + [Node(0x404F, None)] + Group4FFF() + Group5FFF()
  {
    var rest := Group4FFF() + Group5FFF();
    assert Group3FFF() + Group4FFF() + Group5FFF() == Group3FFF() + rest;
    PutAppend(Group3FFF(), rest, Node(0x404F, None));
    assert rest[0] == Node(0x4A4F, None);
    assert Put(rest, Node(0x404F, None)) == [Node(0x404F, None)] + rest;
  }

  /**
   * "@O" finds bucket 4FFF full and holding the local node: it is split once, at
   * 47FF, and "@O" becomes the only member of the new bucket 47FF.
   */
  lemma AddNodeSecondSplitFixture()
    ensures AddNode(AllFull([0x3FFF, 0x4FFF, 0x5FFF, 0x7FFF, 0xFFFF]), Node(0x404F, None)) ==
      Ok((true, AllFull([0x3FFF, 0x47FF, 0x4FFF, 0x5FFF, 0x7FFF, 0xFFFF]).(nodes :=
        Group3FFF() + [Node(0x404F, None)] + Group4FFF() + Group5FFF())))
  {
    SplitFixtureStep1();
    SplitFixtureStep2();
    SplitFixtureStep3();
    SplitFixtureStep4();
    SecondSplitFixtureStep();
    SecondSplitFixtureRoom();
  }
}
